/** The mutable `login -> score` map the engine accumulates into, and the loops that fill
    it. Each method is proved to leave the map equal to the old one with the award list of
    `ScoreSpec` applied, so everything proved there carries over to the loops. */
module ContributorMaps {
  import opened Types
  import opened Exclusion
  import opened ScoreSpec
  import ScoreProps

  /** No login occurs twice. */
  predicate Distinct(logins: seq<string>) {
    forall i, j :: 0 <= i < j < |logins| ==> logins[i] != logins[j]
  }

  class ContributorMap {
    /** The score of every login seen so far. */
    var scores: map<string, int>
    /** The logins in the order they were first scored, the order in which `Object.entries`
        lists the keys of the source's map. */
    var order: seq<string>

    ghost predicate Valid()
      reads this
    {
      Distinct(order) && (forall k :: k in scores <==> k in order)
    }

    constructor ()
      ensures Valid() && scores == map[] && order == []
    {
      scores := map[];
      order := [];
    }

    /** `addScore`: the login's score grows by `points` (from 0 when it had none), every other
        login keeps its score, and a new login is listed last. */
    method AddScore(login: string, points: int)
      requires Valid()
      modifies this
      ensures Valid()
      ensures scores == ScoreSpec.AddScore(old(scores), login, points)
      ensures order == if login in old(scores) then old(order) else old(order) + [login]
    {
      if login !in scores {
        order := order + [login];
      }
      scores := scores[login := (if login in scores then scores[login] else 0) + points];
    }

    /** `processReactions`: the reaction awards of `reactions` go to `itemCreator`. */
    method ProcessReactions(reactions: seq<Reaction>, itemCreator: string, isPullRequest: bool)
      requires Valid()
      modifies this
      ensures Valid()
      ensures scores == Apply(old(scores), ReactionAwards(reactions, itemCreator, isPullRequest))
    {
      for i := 0 to |reactions|
        invariant Valid()
        invariant scores == Apply(old(scores), ReactionAwards(reactions[..i], itemCreator, isPullRequest))
      {
        var reaction := reactions[i];
        ghost var done := ReactionAwards(reactions[..i], itemCreator, isPullRequest);
        ghost var next := ReactionAwards(reactions[..i + 1], itemCreator, isPullRequest);
        assert reactions[..i + 1][..i] == reactions[..i] && reactions[..i + 1][i] == reaction;
        if !ShouldExcludeLogin(reaction.user)
           && (reaction.content == "+1" || reaction.content == "heart" || reaction.content == "hooray")
        {
          ghost var award := Award(itemCreator, ReactionWeight(isPullRequest));
          assert Qualifies(reaction);
          assert next == done + [award];
          AddScore(itemCreator, if isPullRequest then PR_REACTION else ISSUE_REACTION);
          ScoreProps.ApplySnoc(old(scores), done, award);
        } else {
          assert !Qualifies(reaction);
          assert next == done;
        }
      }
      assert reactions[..|reactions|] == reactions;
    }

    /** `processReviews`: one review award per review, to its author unless excluded. */
    method ProcessReviews(reviews: seq<Review>)
      requires Valid()
      modifies this
      ensures Valid()
      ensures scores == Apply(old(scores), ReviewAwards(reviews))
    {
      for i := 0 to |reviews|
        invariant Valid()
        invariant scores == Apply(old(scores), ReviewAwards(reviews[..i]))
      {
        var review := reviews[i];
        ghost var done := ReviewAwards(reviews[..i]);
        assert reviews[..i + 1][..i] == reviews[..i];
        if !ShouldExcludeLogin(review.user) {
          assert ReviewAwards(reviews[..i + 1]) == done + [Award(review.user, PR_REVIEW)];
          AddScore(review.user, PR_REVIEW);
          ScoreProps.ApplySnoc(old(scores), done, Award(review.user, PR_REVIEW));
        } else {
          assert ReviewAwards(reviews[..i + 1]) == done + [];
          assert done + [] == done;
        }
      }
      assert reviews[..|reviews|] == reviews;
    }

    /** The body of the comment loop for one comment. */
    method ProcessComment(comment: Comment, isPullRequest: bool, maintainers: set<string>)
      requires Valid()
      modifies this
      ensures Valid()
      ensures scores == Apply(old(scores), CommentAward(comment, isPullRequest, maintainers))
    {
      if ShouldExcludeLogin(comment.user) {
        return;
      }
      var hasThumbsDown := HasThumbsDown(comment.reactions, maintainers);
      var own: seq<Award> := [];
      if !hasThumbsDown {
        AddScore(comment.user, if isPullRequest then PR_COMMENT else ISSUE_COMMENT);
        own := [Award(comment.user, CommentWeight(isPullRequest))];
      }
      assert scores == Apply(old(scores), own) by {
        assert own == [] || own[..0] == [];
      }
      ProcessReactions(comment.reactions, comment.user, isPullRequest);
      ScoreProps.ApplyAppend(old(scores), own, ReactionAwards(comment.reactions, comment.user, isPullRequest));
    }

    /** `processComments`: the comment awards of every comment, in order. */
    method ProcessComments(comments: seq<Comment>, isPullRequest: bool, maintainers: set<string>)
      requires Valid()
      modifies this
      ensures Valid()
      ensures scores == Apply(old(scores), CommentAwards(comments, isPullRequest, maintainers))
    {
      for i := 0 to |comments|
        invariant Valid()
        invariant scores == Apply(old(scores), CommentAwards(comments[..i], isPullRequest, maintainers))
      {
        assert comments[..i + 1][..i] == comments[..i];
        ProcessComment(comments[i], isPullRequest, maintainers);
        ScoreProps.ApplyAppend(old(scores), CommentAwards(comments[..i], isPullRequest, maintainers),
          CommentAward(comments[i], isPullRequest, maintainers));
      }
      assert comments[..|comments|] == comments;
    }

    /** The body of the item loop for one item: skip an excluded author; award the creation
        unless a maintainer vetoed it; then the comments, the reactions on the item, and for a
        pull request its reviews. */
    method ProcessItem(item: Item, maintainers: set<string>)
      requires Valid()
      modifies this
      ensures Valid()
      ensures scores == Apply(old(scores), ItemAwards(item, maintainers))
    {
      if ShouldExcludeLogin(item.user) {
        return;
      }
      ghost var created := CreationAward(item, maintainers);
      ghost var comments := CommentAwards(item.comments, item.isPullRequest, maintainers);
      ghost var reactions := ReactionAwards(item.reactions, item.user, item.isPullRequest);
      ghost var reviews := if item.isPullRequest then ReviewAwards(item.reviews) else [];
      assert ItemAwards(item, maintainers) == created + comments + reactions + reviews;
      var hasThumbsDown := HasThumbsDown(item.reactions, maintainers);
      if !hasThumbsDown {
        AddScore(item.user, if item.isPullRequest then PR_CREATED else ISSUE_CREATED);
      }
      assert scores == Apply(old(scores), created) by {
        assert created == [] || created[..0] == [];
      }
      ProcessComments(item.comments, item.isPullRequest, maintainers);
      ScoreProps.ApplyAppend(old(scores), created, comments);
      assert scores == Apply(old(scores), created + comments);
      ProcessReactions(item.reactions, item.user, item.isPullRequest);
      ScoreProps.ApplyAppend(old(scores), created + comments, reactions);
      assert scores == Apply(old(scores), created + comments + reactions);
      if item.isPullRequest {
        ProcessReviews(item.reviews);
      }
      ScoreProps.ApplyAppend(old(scores), created + comments + reactions, reviews);
    }

    /** `processIssuesAndPullRequests` over the already-fetched items. */
    method ProcessIssuesAndPullRequests(items: seq<Item>, maintainers: set<string>)
      requires Valid()
      modifies this
      ensures Valid()
      ensures scores == Apply(old(scores), AllAwards(items, maintainers))
    {
      for i := 0 to |items|
        invariant Valid()
        invariant scores == Apply(old(scores), AllAwards(items[..i], maintainers))
      {
        assert items[..i + 1][..i] == items[..i];
        ProcessItem(items[i], maintainers);
        ScoreProps.ApplyAppend(old(scores), AllAwards(items[..i], maintainers), ItemAwards(items[i], maintainers));
      }
      assert items[..|items|] == items;
    }
  }
}
