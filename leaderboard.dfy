/** `getContributorScores`: resolve the maintainers, run the item loop into a fresh map,
    and rank the result. The listings come in as values: the collaborator listing and the
    drained list of issues and pull requests with their comments, reactions and reviews. */
module Leaderboard {
  import opened Types
  import opened ScoreSpec
  import ScoreProps
  import ContributorMaps
  import Ranking
  import Roles
  import Percentages

  /** The map the item loop builds from an empty map, given the maintainers' logins: its keys
      are exactly the logins the items earn points, each with those points. */
  function FinalScores(items: seq<Item>, maintainers: set<string>): (r: map<string, int>)
    ensures forall k :: k in r ==> r[k] == ScoreProps.TotalPoints(items, maintainers, k) > 0
    ensures forall k :: k !in r ==> ScoreProps.TotalPoints(items, maintainers, k) == 0
  {
    ScoreProps.ScoresPositive(items, maintainers);
    ScoreProps.UnscoredEarnNothing(items, maintainers);
    Apply(map[], AllAwards(items, maintainers))
  }

  /** `getContributorScores`: the ranking, cut at `top`, of the map the item loop builds
      with the maintainers' logins from the collaborator listing. Every entry's score is the
      closed-form points the items earn that login, which are positive, so the percentages
      of the result are defined; and the result is a prefix of a ranking of the whole map,
      so a cut never reorders the entries it keeps. */
  method GetContributorScores(collaborators: seq<Collaborator>, items: seq<Item>, top: int)
    returns (contributors: seq<Contributor>)
    ensures var maintainers := Roles.MaintainerLogins(Roles.GetMaintainers(collaborators));
      && Ranking.RanksTop(contributors, FinalScores(items, maintainers), top)
      && forall i :: 0 <= i < |contributors| ==>
           contributors[i].score == ScoreProps.TotalPoints(items, maintainers, contributors[i].login) > 0
    ensures var maintainers := Roles.MaintainerLogins(Roles.GetMaintainers(collaborators));
      exists full :: Ranking.RanksTop(full, FinalScores(items, maintainers), 0) && contributors == full[..|contributors|]
    ensures contributors == [] || Percentages.TotalScore(contributors) > 0
  {
    var maintainers := Roles.GetMaintainers(collaborators);
    var maintainerLogins := Roles.MaintainerLogins(maintainers);
    var board := new ContributorMaps.ContributorMap();
    board.ProcessIssuesAndPullRequests(items, maintainerLogins);
    ghost var final := FinalScores(items, maintainerLogins);
    assert board.scores == final;
    contributors := Ranking.ContributorScores(board.scores, board.order, top);
    ghost var full := Ranking.Ranked(board.scores, board.order);
    ghost var all := Ranking.ContributorScores(board.scores, board.order, 0);
    assert all == full;
    RankedScoresPositive(contributors, items, maintainerLogins, top);
  }

  /** Every entry of a ranking of the final map scores exactly the login's total points,
      which are positive; so is the total of a non-empty ranking. */
  lemma RankedScoresPositive(r: seq<Contributor>, items: seq<Item>, maintainers: set<string>, top: int)
    requires Ranking.RanksTop(r, FinalScores(items, maintainers), top)
    ensures forall i :: 0 <= i < |r| ==> r[i].score == ScoreProps.TotalPoints(items, maintainers, r[i].login) > 0
    ensures r == [] || Percentages.TotalScore(r) > 0
  {
    ScoreProps.ScoresPositive(items, maintainers);
    Percentages.TotalPositive(r);
  }
}
