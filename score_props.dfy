/** What the award lists add up to: the map the engine builds, per login, in closed form,
    and the veto and exclusion rules read off that form. */
module ScoreProps {
  import opened Types
  import opened Exclusion
  import opened ScoreSpec

  /** Adding two lists of awards one after the other is adding their concatenation. */
  lemma {:induction false} ApplyAppend(m: map<string, int>, a: seq<Award>, b: seq<Award>)
    ensures Apply(m, a + b) == Apply(Apply(m, a), b)
    decreases |b|
  {
    if b == [] {
      assert a + b == a;
    } else {
      assert (a + b)[..|a + b| - 1] == a + b[..|b| - 1];
      ApplyAppend(m, a, b[..|b| - 1]);
    }
  }

  /** Adding one more award is one more `addScore` call. */
  lemma ApplySnoc(m: map<string, int>, a: seq<Award>, x: Award)
    ensures Apply(m, a + [x]) == ScoreSpec.AddScore(Apply(m, a), x.login, x.points)
  {
    assert (a + [x])[..|a + [x]| - 1] == a;
  }

  /** The points two lists give a login add up. */
  lemma {:induction false} CreditAppend(a: seq<Award>, b: seq<Award>, login: string)
    ensures Credit(a + b, login) == Credit(a, login) + Credit(b, login)
    decreases |b|
  {
    if b == [] {
      assert a + b == a;
    } else {
      assert (a + b)[..|a + b| - 1] == a + b[..|b| - 1];
      CreditAppend(a, b[..|b| - 1], login);
    }
  }

  /** The map after a list of awards: every login's score is its old score plus the points
      the list gives it, and the keys are the old keys plus the recipients. */
  lemma {:induction false} ApplyCredit(m: map<string, int>, aws: seq<Award>)
    ensures forall k :: Get(Apply(m, aws), k) == Get(m, k) + Credit(aws, k)
    ensures Apply(m, aws).Keys == m.Keys + Recipients(aws)
    decreases |aws|
  {
    if aws != [] {
      ApplyCredit(m, aws[..|aws| - 1]);
    }
  }

  /** Every recipient of a rewarding list is a login the policy keeps, and what a list of
      positive awards gives any login is never negative. */
  lemma {:induction false} RewardingCredit(aws: seq<Award>, login: string)
    requires Rewarding(aws)
    ensures Credit(aws, login) >= 0
    ensures login in Recipients(aws) ==> !ShouldExcludeLogin(login) && Credit(aws, login) > 0
    ensures ShouldExcludeLogin(login) ==> Credit(aws, login) == 0
    decreases |aws|
  {
    if aws != [] {
      RewardingCredit(aws[..|aws| - 1], login);
    }
  }

  /** Reaction awards: the creator gets the reaction weight once per qualifying reaction,
      and nobody else (in particular no reactor) gets anything. */
  lemma {:induction false} ReactionCredit(reactions: seq<Reaction>, creator: string, isPullRequest: bool, login: string)
    ensures Credit(ReactionAwards(reactions, creator, isPullRequest), login)
         == if login == creator then ReactionWeight(isPullRequest) * QualifyingCount(reactions) else 0
    decreases |reactions|
  {
    if reactions != [] {
      var init := reactions[..|reactions| - 1];
      ReactionCredit(init, creator, isPullRequest, login);
      CreditAppend(ReactionAwards(init, creator, isPullRequest),
        if Qualifies(reactions[|reactions| - 1]) then [Award(creator, ReactionWeight(isPullRequest))] else [], login);
    }
  }

  /** Review awards: a login gets the review weight once per review it wrote, however many. */
  lemma {:induction false} ReviewCredit(reviews: seq<Review>, login: string)
    ensures Credit(ReviewAwards(reviews), login) == PR_REVIEW * ReviewCount(reviews, login)
    decreases |reviews|
  {
    if reviews != [] {
      var init, last := reviews[..|reviews| - 1], reviews[|reviews| - 1];
      ReviewCredit(init, login);
      CreditAppend(ReviewAwards(init), if !ShouldExcludeLogin(last.user) then [Award(last.user, PR_REVIEW)] else [], login);
    }
  }

  /** What comment `c` earns `login`: nothing unless `login` wrote it and is not excluded;
      then the comment weight unless a maintainer vetoed the comment, plus the reaction
      weight for each qualifying reaction on it, vetoed or not. */
  function CommentPoints(c: Comment, isPullRequest: bool, maintainers: set<string>, login: string): int {
    if c.user != login || ShouldExcludeLogin(login) then 0
    else
      (if HasThumbsDown(c.reactions, maintainers) then 0 else CommentWeight(isPullRequest))
        + ReactionWeight(isPullRequest) * QualifyingCount(c.reactions)
  }

  /** What all comments of an item earn `login`. */
  function CommentsPoints(comments: seq<Comment>, isPullRequest: bool, maintainers: set<string>, login: string): int
    decreases |comments|
  {
    if comments == [] then 0
    else
      CommentsPoints(comments[..|comments| - 1], isPullRequest, maintainers, login)
        + CommentPoints(comments[|comments| - 1], isPullRequest, maintainers, login)
  }

  /** What `item` earns `login`, in closed form: nothing when the item's author is excluded;
      otherwise the author gets the creation weight unless a maintainer vetoed the item, plus
      the reaction weight per qualifying reaction on the item; each commenter gets what their
      comments earn; and for a pull request each reviewer the review weight per review. */
  function ItemPoints(item: Item, maintainers: set<string>, login: string): int {
    if ShouldExcludeLogin(item.user) then 0
    else
      (if login == item.user then
         (if HasThumbsDown(item.reactions, maintainers) then 0 else CreatedWeight(item.isPullRequest))
           + ReactionWeight(item.isPullRequest) * QualifyingCount(item.reactions)
       else 0)
        + CommentsPoints(item.comments, item.isPullRequest, maintainers, login)
        + (if item.isPullRequest then PR_REVIEW * ReviewCount(item.reviews, login) else 0)
  }

  /** What a whole list of items earns `login`. */
  function TotalPoints(items: seq<Item>, maintainers: set<string>, login: string): int
    decreases |items|
  {
    if items == [] then 0
    else TotalPoints(items[..|items| - 1], maintainers, login) + ItemPoints(items[|items| - 1], maintainers, login)
  }

  lemma CommentCredit(c: Comment, isPullRequest: bool, maintainers: set<string>, login: string)
    ensures Credit(CommentAward(c, isPullRequest, maintainers), login) == CommentPoints(c, isPullRequest, maintainers, login)
  {
    if !ShouldExcludeLogin(c.user) {
      var own := if HasThumbsDown(c.reactions, maintainers) then [] else [Award(c.user, CommentWeight(isPullRequest))];
      CreditAppend(own, ReactionAwards(c.reactions, c.user, isPullRequest), login);
      ReactionCredit(c.reactions, c.user, isPullRequest, login);
      assert own == [] || own[..0] == [];
    }
  }

  lemma {:induction false} CommentsCredit(comments: seq<Comment>, isPullRequest: bool, maintainers: set<string>, login: string)
    ensures Credit(CommentAwards(comments, isPullRequest, maintainers), login)
         == CommentsPoints(comments, isPullRequest, maintainers, login)
    decreases |comments|
  {
    if comments != [] {
      var init := comments[..|comments| - 1];
      CommentsCredit(init, isPullRequest, maintainers, login);
      CommentCredit(comments[|comments| - 1], isPullRequest, maintainers, login);
      CreditAppend(CommentAwards(init, isPullRequest, maintainers),
        CommentAward(comments[|comments| - 1], isPullRequest, maintainers), login);
    }
  }

  /** The award list of one item gives every login exactly its closed-form points. */
  lemma ItemCredit(item: Item, maintainers: set<string>, login: string)
    ensures Credit(ItemAwards(item, maintainers), login) == ItemPoints(item, maintainers, login)
  {
    if !ShouldExcludeLogin(item.user) {
      var pr := item.isPullRequest;
      var created := CreationAward(item, maintainers);
      var comments := CommentAwards(item.comments, pr, maintainers);
      var reactions := ReactionAwards(item.reactions, item.user, pr);
      var reviews := if pr then ReviewAwards(item.reviews) else [];
      CreditAppend(created + comments + reactions, reviews, login);
      CreditAppend(created + comments, reactions, login);
      CreditAppend(created, comments, login);
      CommentsCredit(item.comments, pr, maintainers, login);
      ReactionCredit(item.reactions, item.user, pr, login);
      if pr {
        ReviewCredit(item.reviews, login);
      }
      assert created == [] || created[..0] == [];
    }
  }

  lemma {:induction false} AllCredit(items: seq<Item>, maintainers: set<string>, login: string)
    ensures Credit(AllAwards(items, maintainers), login) == TotalPoints(items, maintainers, login)
    decreases |items|
  {
    if items != [] {
      var init := items[..|items| - 1];
      AllCredit(init, maintainers, login);
      ItemCredit(items[|items| - 1], maintainers, login);
      CreditAppend(AllAwards(init, maintainers), ItemAwards(items[|items| - 1], maintainers), login);
    }
  }

  /** End to end: after the item loop, every login's score is its score before the loop plus
      what the items earn it in closed form; the loop only adds logins the policy keeps, and
      an excluded login's score is left exactly as it was. */
  lemma ScoreOfLogin(m: map<string, int>, items: seq<Item>, maintainers: set<string>, login: string)
    ensures Get(Apply(m, AllAwards(items, maintainers)), login) == Get(m, login) + TotalPoints(items, maintainers, login)
    ensures TotalPoints(items, maintainers, login) >= 0
    ensures login in Apply(m, AllAwards(items, maintainers)) && login !in m ==> !ShouldExcludeLogin(login)
    ensures ShouldExcludeLogin(login) ==> TotalPoints(items, maintainers, login) == 0
  {
    var aws := AllAwards(items, maintainers);
    ApplyCredit(m, aws);
    AllCredit(items, maintainers, login);
    RewardingCredit(aws, login);
  }

  /** Starting from an empty map, every login the item loop scores has a positive score,
      namely the points the items earn it. */
  lemma ScoresPositive(items: seq<Item>, maintainers: set<string>)
    ensures forall k :: k in Apply(map[], AllAwards(items, maintainers)) ==>
              Apply(map[], AllAwards(items, maintainers))[k] == TotalPoints(items, maintainers, k) > 0
  {
    var aws := AllAwards(items, maintainers);
    ApplyCredit(map[], aws);
    forall k | k in Apply(map[], aws) ensures Apply(map[], aws)[k] == TotalPoints(items, maintainers, k) > 0 {
      RewardingCredit(aws, k);
      AllCredit(items, maintainers, k);
    }
  }

  /** Starting from an empty map, a login the item loop does not score earns no points. */
  lemma UnscoredEarnNothing(items: seq<Item>, maintainers: set<string>)
    ensures forall k :: k !in Apply(map[], AllAwards(items, maintainers)) ==> TotalPoints(items, maintainers, k) == 0
  {
    forall k | k !in Apply(map[], AllAwards(items, maintainers)) ensures TotalPoints(items, maintainers, k) == 0 {
      ScoreOfLogin(map[], items, maintainers, k);
    }
  }

  /** Scores only grow, so a map of non-negative scores stays non-negative. */
  lemma ScoresOnlyGrow(m: map<string, int>, items: seq<Item>, maintainers: set<string>)
    ensures m.Keys <= Apply(m, AllAwards(items, maintainers)).Keys
    ensures forall k :: Get(m, k) <= Get(Apply(m, AllAwards(items, maintainers)), k)
    ensures (forall k :: k in m ==> m[k] >= 0) ==>
              forall k :: k in Apply(m, AllAwards(items, maintainers)) ==> Apply(m, AllAwards(items, maintainers))[k] >= 0
  {
    var aws := AllAwards(items, maintainers);
    var r := Apply(m, aws);
    ApplyCredit(m, aws);
    forall k ensures Get(m, k) <= Get(r, k) {
      RewardingCredit(aws, k);
    }
    if forall k :: k in m ==> m[k] >= 0 {
      forall k | k in r ensures r[k] >= 0 {
        assert Get(m, k) >= 0;
        assert Get(m, k) <= Get(r, k);
      }
    }
  }

  /** The items whose authors the policy keeps: each such item as often as it is listed,
      and no other. */
  function KeptItems(items: seq<Item>): (r: seq<Item>)
    ensures |r| <= |items|
    ensures forall i :: 0 <= i < |r| ==> !ShouldExcludeLogin(r[i].user)
    ensures forall x :: multiset(r)[x] == if ShouldExcludeLogin(x.user) then 0 else multiset(items)[x]
    decreases |items|
  {
    if items == [] then []
    else
      var init, last := items[..|items| - 1], items[|items| - 1];
      assert items == init + [last];
      KeptItems(init) + (if ShouldExcludeLogin(last.user) then [] else [last])
  }

  /** Dropping the items whose authors are excluded changes no award: such an item adds
      nothing at all, neither for its comments nor for its reactions nor for its reviews. */
  lemma {:induction false} ExcludedItemsAddNothing(items: seq<Item>, maintainers: set<string>)
    ensures AllAwards(items, maintainers) == AllAwards(KeptItems(items), maintainers)
    decreases |items|
  {
    if items != [] {
      var init, last := items[..|items| - 1], items[|items| - 1];
      ExcludedItemsAddNothing(init, maintainers);
      var kept := KeptItems(init) + (if ShouldExcludeLogin(last.user) then [] else [last]);
      if ShouldExcludeLogin(last.user) {
        assert kept == KeptItems(init);
      } else {
        assert kept[..|kept| - 1] == KeptItems(init);
      }
    }
  }

  /** The reactions that are not a maintainer's thumbs-down: every other reaction as often as
      it is listed, and no veto. */
  function WithoutVetoes(reactions: seq<Reaction>, maintainers: set<string>): (r: seq<Reaction>)
    ensures !HasThumbsDown(r, maintainers)
    ensures forall i :: 0 <= i < |r| ==> r[i] in reactions
    ensures forall x :: multiset(r)[x] == if x.user in maintainers && x.content == "-1" then 0 else multiset(reactions)[x]
    decreases |reactions|
  {
    if reactions == [] then []
    else
      var init, last := reactions[..|reactions| - 1], reactions[|reactions| - 1];
      assert reactions == init + [last];
      WithoutVetoes(init, maintainers)
        + (if last.user in maintainers && last.content == "-1" then [] else [last])
  }

  /** The `.some` veto test holds exactly when removing the vetoes removes something. */
  lemma {:induction false} ThumbsDownIffVetoRemoved(reactions: seq<Reaction>, maintainers: set<string>)
    ensures HasThumbsDown(reactions, maintainers) <==> |WithoutVetoes(reactions, maintainers)| < |reactions|
    ensures |WithoutVetoes(reactions, maintainers)| <= |reactions|
    decreases |reactions|
  {
    if reactions != [] {
      var init, last := reactions[..|reactions| - 1], reactions[|reactions| - 1];
      assert reactions == init + [last];
      ThumbsDownIffVetoRemoved(init, maintainers);
      var veto := last.user in maintainers && last.content == "-1";
      assert |WithoutVetoes(reactions, maintainers)| == |WithoutVetoes(init, maintainers)| + (if veto then 0 else 1);
      assert HasThumbsDown(reactions, maintainers) <==> HasThumbsDown(init, maintainers) || veto by {
        assert forall r :: r in reactions <==> r in init || r == last;
      }
    }
  }

  /** A thumbs-down never earns reaction points, so removing the vetoes keeps the count. */
  lemma {:induction false} WithoutVetoesKeepsQualifying(reactions: seq<Reaction>, maintainers: set<string>)
    ensures QualifyingCount(WithoutVetoes(reactions, maintainers)) == QualifyingCount(reactions)
    decreases |reactions|
  {
    if reactions != [] {
      var init, last := reactions[..|reactions| - 1], reactions[|reactions| - 1];
      assert reactions[..|reactions| - 1] == init;
      WithoutVetoesKeepsQualifying(init, maintainers);
      var w := WithoutVetoes(init, maintainers);
      if last.user in maintainers && last.content == "-1" {
        assert WithoutVetoes(reactions, maintainers) == w;
        assert !Qualifies(last);
      } else {
        var r := w + [last];
        assert WithoutVetoes(reactions, maintainers) == r;
        assert r[..|r| - 1] == w && r[|r| - 1] == last;
      }
    }
  }

  /** A maintainer's thumbs-down on an item costs its author exactly the creation award and
      nothing more: with the vetoes taken away every login earns the same, except the author,
      who earns the creation weight on top. The comment, reaction and review awards of the
      item do not depend on the veto. */
  lemma ItemVetoOnlySuppressesCreation(item: Item, maintainers: set<string>, login: string)
    ensures ItemPoints(item, maintainers, login)
         == ItemPoints(item.(reactions := WithoutVetoes(item.reactions, maintainers)), maintainers, login)
            - (if login == item.user && !ShouldExcludeLogin(item.user) && HasThumbsDown(item.reactions, maintainers)
               then CreatedWeight(item.isPullRequest) else 0)
  {
    WithoutVetoesKeepsQualifying(item.reactions, maintainers);
  }

  /** The same for a comment: a maintainer's thumbs-down costs the comment's author exactly
      the comment award; the reaction points the comment earns are kept. */
  lemma CommentVetoOnlySuppressesComment(c: Comment, isPullRequest: bool, maintainers: set<string>, login: string)
    ensures CommentPoints(c, isPullRequest, maintainers, login)
         == CommentPoints(c.(reactions := WithoutVetoes(c.reactions, maintainers)), isPullRequest, maintainers, login)
            - (if login == c.user && !ShouldExcludeLogin(login) && HasThumbsDown(c.reactions, maintainers)
               then CommentWeight(isPullRequest) else 0)
  {
    WithoutVetoesKeepsQualifying(c.reactions, maintainers);
  }
}
