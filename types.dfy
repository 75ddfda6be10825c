/** The records the scoring engine works on, and the fixed table of score weights.

    The remote listings (issues and pull requests, their comments, reactions and reviews,
    the repository's collaborators) are given here as already-fetched values. */
module Types {

  /** One entry of the leaderboard: a login and its accumulated score. */
  datatype Contributor = Contributor(login: string, score: int)

  /** A leaderboard entry with its share of the total, in hundredths of a percent
      (`percentage == 1234` stands for 12.34%). */
  datatype ContributorPercentage = ContributorPercentage(login: string, score: int, percentage: int)

  /** A reaction on an issue, a pull request or a comment: who reacted, and the
      reaction's content ("+1", "-1", "heart", "hooray", ...). */
  datatype Reaction = Reaction(user: string, content: string)

  /** A comment on an item, with the reactions listed for that comment. */
  datatype Comment = Comment(user: string, reactions: seq<Reaction>)

  /** A review of a pull request; only its author matters for scoring. */
  datatype Review = Review(user: string)

  /** An issue or a pull request, with everything listed for it. `reviews` is only
      consulted when `isPullRequest` holds. */
  datatype Item = Item(
    number: nat,
    user: string,
    isPullRequest: bool,
    reactions: seq<Reaction>,
    comments: seq<Comment>,
    reviews: seq<Review>)

  /** The permission flags the collaborator listing reports. */
  datatype Permissions = Permissions(admin: bool, maintain: bool, push: bool)

  datatype Option<T> = None | Some(value: T)

  /** A collaborator as listed by the remote API. `permissions` may be missing;
      `roleName == ""` stands for a missing or empty role name (both are falsy). */
  datatype Collaborator = Collaborator(
    login: string,
    avatarUrl: string,
    htmlUrl: string,
    permissions: Option<Permissions>,
    roleName: string)

  /** A user with push access (or more), with the role label shown for them. */
  datatype Maintainer = Maintainer(login: string, avatarUrl: string, htmlUrl: string, role: string)

  // The score weights, one per kind of event.
  const ISSUE_CREATED: int := 10
  const ISSUE_COMMENT: int := 5
  const ISSUE_REACTION: int := 2
  const PR_CREATED: int := 20
  const PR_REVIEW: int := 15
  const PR_COMMENT: int := 10
  const PR_REACTION: int := 3

  /** The award for opening an item. */
  function CreatedWeight(isPullRequest: bool): (w: int)
    ensures w > 0
    ensures isPullRequest ==> w > ISSUE_CREATED
  {
    if isPullRequest then PR_CREATED else ISSUE_CREATED
  }

  /** The award for writing a comment on an item. */
  function CommentWeight(isPullRequest: bool): (w: int)
    ensures w > 0
    ensures isPullRequest ==> w > ISSUE_COMMENT
  {
    if isPullRequest then PR_COMMENT else ISSUE_COMMENT
  }

  /** The award the author of an item or comment gets for one qualifying reaction. */
  function ReactionWeight(isPullRequest: bool): (w: int)
    ensures w > 0
    ensures isPullRequest ==> w > ISSUE_REACTION
  {
    if isPullRequest then PR_REACTION else ISSUE_REACTION
  }
}
