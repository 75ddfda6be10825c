/** The scoring engine as values. Each call the source makes to `addScore` is an
    `Award`; `ItemAwards` lists, in the order the source makes them, the awards one
    issue or pull request yields, and `Apply` folds a list of awards into the
    `login -> score` map exactly as the successive `addScore` calls update it. */
module ScoreSpec {
  import opened Types
  import opened Exclusion

  /** One `addScore(contributors, login, points)` call. */
  datatype Award = Award(login: string, points: int)

  /** `contributors[login] || 0` for a login that names no inherited member of a plain
      JavaScript object: its score, or 0 when it is not a key yet. Logins such as
      `constructor` or `toString` read an inherited member instead; those are not modelled. */
  function Get(m: map<string, int>, login: string): int {
    if login in m then m[login] else 0
  }

  /** `addScore` on a value: the login's score grows by `points`, every other key keeps its
      score, and the login becomes a key if it was not one. */
  function AddScore(m: map<string, int>, login: string, points: int): (r: map<string, int>)
    ensures r.Keys == m.Keys + {login}
    ensures login in r && r[login] == Get(m, login) + points
    ensures forall k :: k != login ==> Get(r, k) == Get(m, k)
    ensures forall k :: k in m && k != login ==> r[k] == m[k]
  {
    m[login := Get(m, login) + points]
  }

  /** The map after the awards `aws` have been added, first to last. */
  function Apply(m: map<string, int>, aws: seq<Award>): map<string, int>
    decreases |aws|
  {
    if aws == [] then m
    else
      var last := aws[|aws| - 1];
      AddScore(Apply(m, aws[..|aws| - 1]), last.login, last.points)
  }

  /** The points the awards `aws` give to `login`. */
  function Credit(aws: seq<Award>, login: string): int
    decreases |aws|
  {
    if aws == [] then 0
    else
      var last := aws[|aws| - 1];
      Credit(aws[..|aws| - 1], login) + (if last.login == login then last.points else 0)
  }

  /** The logins that receive at least one of the awards `aws`. */
  function Recipients(aws: seq<Award>): set<string>
    decreases |aws|
  {
    if aws == [] then {} else Recipients(aws[..|aws| - 1]) + {aws[|aws| - 1].login}
  }

  /** Every award is worth something and goes to a login the policy does not exclude. */
  ghost predicate Rewarding(aws: seq<Award>) {
    forall i :: 0 <= i < |aws| ==> aws[i].points > 0 && !ShouldExcludeLogin(aws[i].login)
  }

  /** The `.some(...)` test: a maintainer gave the item or comment a thumbs-down. */
  function HasThumbsDown(reactions: seq<Reaction>, maintainers: set<string>): (b: bool)
    ensures b <==> exists r :: r in reactions && r.user in maintainers && r.content == "-1"
    ensures b ==> maintainers != {} && reactions != []
  {
    exists i :: 0 <= i < |reactions| && reactions[i].user in maintainers && reactions[i].content == "-1"
  }

  /** The reaction contents that earn points. */
  function IsPositive(content: string): (b: bool)
    ensures b ==> content != "-1"
  {
    content == "+1" || content == "heart" || content == "hooray"
  }

  /** A reaction that earns points for the author of what it reacts to. */
  function Qualifies(r: Reaction): (q: bool)
    ensures q ==> r.content != "-1"
    ensures ShouldExcludeLogin(r.user) ==> !q
  {
    !ShouldExcludeLogin(r.user) && IsPositive(r.content)
  }

  /** The number of reactions in `reactions` that earn points. */
  function QualifyingCount(reactions: seq<Reaction>): (n: nat)
    ensures n <= |reactions|
    decreases |reactions|
  {
    if reactions == [] then 0
    else QualifyingCount(reactions[..|reactions| - 1]) + (if Qualifies(reactions[|reactions| - 1]) then 1 else 0)
  }

  /** The number of reviews in `reviews` written by `login`, when that login is not excluded. */
  function ReviewCount(reviews: seq<Review>, login: string): (n: nat)
    ensures n <= |reviews|
    decreases |reviews|
  {
    if reviews == [] then 0
    else
      var last := reviews[|reviews| - 1];
      ReviewCount(reviews[..|reviews| - 1], login) + (if last.user == login && !ShouldExcludeLogin(login) then 1 else 0)
  }

  /** The awards `processReactions(contributors, reactions, creator, isPullRequest)` makes:
      one reaction award to the creator per qualifying reaction, nothing to the reactor. */
  function ReactionAwards(reactions: seq<Reaction>, creator: string, isPullRequest: bool): (r: seq<Award>)
    ensures |r| == QualifyingCount(reactions)
    ensures forall i :: 0 <= i < |r| ==> r[i] == Award(creator, ReactionWeight(isPullRequest))
    decreases |reactions|
  {
    if reactions == [] then []
    else
      var last := reactions[|reactions| - 1];
      ReactionAwards(reactions[..|reactions| - 1], creator, isPullRequest)
        + (if Qualifies(last) then [Award(creator, ReactionWeight(isPullRequest))] else [])
  }

  /** The awards `processReviews(contributors, reviews)` makes: one review award per review,
      to its author, unless that author is excluded. */
  function ReviewAwards(reviews: seq<Review>): (r: seq<Award>)
    ensures Rewarding(r)
    ensures |r| <= |reviews|
    decreases |reviews|
  {
    if reviews == [] then []
    else
      var last := reviews[|reviews| - 1];
      ReviewAwards(reviews[..|reviews| - 1])
        + (if !ShouldExcludeLogin(last.user) then [Award(last.user, PR_REVIEW)] else [])
  }

  /** The awards one pass of the comment loop makes for comment `c`: nothing when its author
      is excluded; otherwise the comment award unless a maintainer vetoed the comment, then
      the reaction awards the comment earns its author. */
  function CommentAward(c: Comment, isPullRequest: bool, maintainers: set<string>): (r: seq<Award>)
    ensures Rewarding(r)
  {
    if ShouldExcludeLogin(c.user) then []
    else
      (if HasThumbsDown(c.reactions, maintainers) then [] else [Award(c.user, CommentWeight(isPullRequest))])
        + ReactionAwards(c.reactions, c.user, isPullRequest)
  }

  /** The awards `processComments` makes for all comments of an item, in order. */
  function CommentAwards(comments: seq<Comment>, isPullRequest: bool, maintainers: set<string>): (r: seq<Award>)
    ensures Rewarding(r)
    decreases |comments|
  {
    if comments == [] then []
    else
      CommentAwards(comments[..|comments| - 1], isPullRequest, maintainers)
        + CommentAward(comments[|comments| - 1], isPullRequest, maintainers)
  }

  /** The award for opening `item`, unless a maintainer vetoed it. */
  function CreationAward(item: Item, maintainers: set<string>): (r: seq<Award>)
    ensures |r| <= 1
    ensures r == [] <==> HasThumbsDown(item.reactions, maintainers)
    ensures forall i :: 0 <= i < |r| ==> r[i] == Award(item.user, CreatedWeight(item.isPullRequest))
  {
    if HasThumbsDown(item.reactions, maintainers) then [] else [Award(item.user, CreatedWeight(item.isPullRequest))]
  }

  /** The awards one pass of the item loop makes for `item`, in the source's order: its creation
      award, its comments, the reactions on it, and (for a pull request) its reviews. An item
      whose author is excluded is skipped altogether. */
  function ItemAwards(item: Item, maintainers: set<string>): (r: seq<Award>)
    ensures Rewarding(r)
  {
    if ShouldExcludeLogin(item.user) then []
    else
      CreationAward(item, maintainers)
        + CommentAwards(item.comments, item.isPullRequest, maintainers)
        + ReactionAwards(item.reactions, item.user, item.isPullRequest)
        + (if item.isPullRequest then ReviewAwards(item.reviews) else [])
  }

  /** The awards the whole item loop makes, item after item. */
  function AllAwards(items: seq<Item>, maintainers: set<string>): (r: seq<Award>)
    ensures Rewarding(r)
    decreases |items|
  {
    if items == [] then []
    else AllAwards(items[..|items| - 1], maintainers) + ItemAwards(items[|items| - 1], maintainers)
  }
}
