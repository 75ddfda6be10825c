/** `getMaintainers` and `determineRole`: the collaborators with push access, each with
    the role label shown for them. */
module Roles {
  import opened Types

  /** `determineRole(permissions)`: the first flag that holds, in the order admin, maintain,
      push, names the role; with none of them the label is "Contributor". */
  function DetermineRole(p: Permissions): (role: string)
    ensures role == "Admin" <==> p.admin
    ensures role == "Maintainer" <==> !p.admin && p.maintain
    ensures role == "Collaborator" <==> !p.admin && !p.maintain && p.push
    ensures role == "Contributor" <==> !p.admin && !p.maintain && !p.push
  {
    if p.admin then "Admin"
    else if p.maintain then "Maintainer"
    else if p.push then "Collaborator"
    else "Contributor"
  }

  /** `collaborator.permissions?.push`: the permissions are listed and grant push. */
  predicate HasPush(c: Collaborator) {
    c.permissions.Some? && c.permissions.value.push
  }

  /** The record `getMaintainers` maps a collaborator with push access to: the role name the
      listing gives, or when it gives none the role its permission flags determine. */
  function ToMaintainer(c: Collaborator): (m: Maintainer)
    requires HasPush(c)
    ensures m.login == c.login && m.avatarUrl == c.avatarUrl && m.htmlUrl == c.htmlUrl
    ensures c.roleName != "" ==> m.role == c.roleName
    ensures c.roleName == "" ==> m.role in {"Admin", "Maintainer", "Collaborator"}
    ensures c.roleName == "" ==> (m.role == "Admin" <==> c.permissions.value.admin)
    ensures c.roleName == "" ==> m.role == DetermineRole(c.permissions.value)
  {
    Maintainer(c.login, c.avatarUrl, c.htmlUrl,
      if c.roleName != "" then c.roleName else DetermineRole(c.permissions.value))
  }

  /** `.filter(collaborator => collaborator.permissions?.push)`: the collaborators with
      push access. */
  function Pushers(cs: seq<Collaborator>): (r: seq<Collaborator>)
    ensures |r| <= |cs|
    ensures forall c :: c in r <==> c in cs && HasPush(c)
    decreases |cs|
  {
    if cs == [] then []
    else
      var init, last := cs[..|cs| - 1], cs[|cs| - 1];
      assert cs == init + [last];
      Pushers(init) + (if HasPush(last) then [last] else [])
  }

  /** The filter keeps each collaborator with push access as often as it is listed, and
      drops every other one. */
  lemma {:induction false} PushersKeepCount(cs: seq<Collaborator>)
    ensures forall c :: multiset(Pushers(cs))[c] == if HasPush(c) then multiset(cs)[c] else 0
    decreases |cs|
  {
    if cs != [] {
      var init, last := cs[..|cs| - 1], cs[|cs| - 1];
      assert cs == init + [last];
      PushersKeepCount(init);
    }
  }

  /** `getMaintainers` over the single, unpaginated collaborator listing: exactly the
      collaborators with push access, position by position each mapped by `ToMaintainer`. */
  function GetMaintainers(cs: seq<Collaborator>): (ms: seq<Maintainer>)
    ensures |ms| == |Pushers(cs)| <= |cs|
    ensures forall i :: 0 <= i < |ms| ==> HasPush(Pushers(cs)[i]) && ms[i] == ToMaintainer(Pushers(cs)[i])
  {
    var pushers := Pushers(cs);
    assert forall i :: 0 <= i < |pushers| ==> pushers[i] in pushers;
    seq(|pushers|, i requires 0 <= i < |pushers| => ToMaintainer(pushers[i]))
  }

  /** The logins the veto rule treats as maintainers. */
  function MaintainerLogins(ms: seq<Maintainer>): (logins: set<string>)
    ensures forall l :: l in logins <==> exists i :: 0 <= i < |ms| && ms[i].login == l
  {
    set i | 0 <= i < |ms| :: ms[i].login
  }

  /** A login counts as a maintainer for the veto exactly when some collaborator with that
      login has push access. */
  lemma MaintainersArePushers(cs: seq<Collaborator>, login: string)
    ensures login in MaintainerLogins(GetMaintainers(cs))
            <==> exists c :: c in cs && HasPush(c) && c.login == login
  {
    var ms, pushers := GetMaintainers(cs), Pushers(cs);
    assert login in MaintainerLogins(ms) ==> exists c :: c in cs && HasPush(c) && c.login == login by {
      if login in MaintainerLogins(ms) {
        var i :| 0 <= i < |ms| && ms[i].login == login;
        var c := pushers[i];
        assert c in pushers && c.login == login;
      }
    }
    assert (exists c :: c in cs && HasPush(c) && c.login == login) ==> login in MaintainerLogins(ms) by {
      if c :| c in cs && HasPush(c) && c.login == login {
        assert c in pushers;
        var i :| 0 <= i < |pushers| && pushers[i] == c;
        assert ms[i].login == login;
      }
    }
  }
}
