/** Which logins the scoring engine ignores: a fixed block-list of automation
    accounts, and every login carrying the "[bot]" marker. */
module Exclusion {

  const BOT_MARKER: string := "[bot]"
  const EXCLUDED_LOGINS: set<string> := {"vercel[bot]", "socket-security[bot]"}

  /** `sub` occurs in `s` starting at index `i`. */
  predicate OccursAt(s: string, sub: string, i: nat) {
    i + |sub| <= |s| && s[i..i + |sub|] == sub
  }

  /** String containment, as `login.includes(sub)` decides it. */
  function Contains(s: string, sub: string): (r: bool)
    ensures r <==> exists i: nat :: OccursAt(s, sub, i)
    decreases |s|
  {
    if |s| < |sub| then
      assert forall i: nat :: !OccursAt(s, sub, i);
      false
    else if s[..|sub|] == sub then
      assert OccursAt(s, sub, 0);
      true
    else
      assert !OccursAt(s, sub, 0);
      ShiftOccurrences(s, sub);
      Contains(s[1..], sub)
  }

  /** When `sub` does not start `s`, it occurs in `s` exactly when it occurs in `s[1..]`. */
  lemma ShiftOccurrences(s: string, sub: string)
    requires |s| >= 1 && !OccursAt(s, sub, 0)
    ensures (exists i: nat :: OccursAt(s, sub, i)) <==> (exists i: nat :: OccursAt(s[1..], sub, i))
  {
    forall i: nat | OccursAt(s[1..], sub, i) ensures OccursAt(s, sub, i + 1) {
      assert s[1..][i..i + |sub|] == s[i + 1..i + 1 + |sub|];
    }
    forall i: nat | OccursAt(s, sub, i) ensures i >= 1 && OccursAt(s[1..], sub, i - 1) {
      assert s[1..][i - 1..i - 1 + |sub|] == s[i..i + |sub|];
    }
  }

  /** The engine's exclusion policy for an actor's login: block-listed, or carrying the
      bot marker. Both block-listed logins carry the marker themselves, so a login is
      excluded exactly when "[bot]" occurs in it. */
  function ShouldExcludeLogin(login: string): (r: bool)
    ensures r <==> exists i: nat :: OccursAt(login, BOT_MARKER, i)
  {
    assert OccursAt("vercel[bot]", BOT_MARKER, 6);
    assert OccursAt("socket-security[bot]", BOT_MARKER, 15);
    login in EXCLUDED_LOGINS || Contains(login, BOT_MARKER)
  }

  /** A login without a '[' cannot be excluded: ordinary user names always count. */
  lemma PlainLoginNotExcluded(login: string)
    requires forall i :: 0 <= i < |login| ==> login[i] != '['
    ensures !ShouldExcludeLogin(login)
  {
    forall i: nat ensures !OccursAt(login, BOT_MARKER, i) {
      if i + |BOT_MARKER| <= |login| {
        assert login[i..i + |BOT_MARKER|][0] == login[i];
      }
    }
  }
}
