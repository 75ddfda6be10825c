# contributor-graph scoring engine in Dafny

This project models the scoring engine of contributor-graph (`src/github.ts`). The engine
credits a repository's contributors with points for issues and pull requests they open, for
comments they write, for reviews they give and for positive reactions others leave on their
work. It then ranks the contributors, optionally keeps only the `top` of them, and turns the
scores into percentages that add up to exactly 100%.

Module by module:

- `Types`
  - The records the engine reads: items, comments, reactions, reviews, collaborators.
  - What it produces: contributors, percentages, maintainers.
  - The score weights of `src/types.ts`.
- `Exclusion`: `shouldExcludeLogin`. Both hard-coded logins already contain `[bot]`, so a
  login is excluded exactly when it contains `[bot]`.
- `ScoreSpec`: the meaning of the engine as data.
  - Every `addScore` call the loops make is an `Award(login, points)`.
  - `ItemAwards` lists the awards of one item in the order the source makes them: creation
    (unless a maintainer reacted `-1` on the item), then comments (each comment unless
    vetoed, then the reactions on that comment), then reactions on the item, then reviews of
    a pull request.
  - `Apply` folds `AddScore` over such a list.
- `ScoreProps`: lemmas about those award lists.
  - A closed-form reference for the points of one login (`ItemPoints`, `TotalPoints`) is
    proved equal to the credit the award list gives that login.
  - Scores are non-negative, and every login on the board scores more than zero.
  - Excluded logins and items by excluded authors add nothing.
  - A maintainer's `-1` suppresses only the creation (or comment) award it sits on. The
    reaction points of that same item or comment are kept.
- `ContributorMaps`: the mutable `ContributorMap` and the loops.
  - The loops are `addScore`, `processReactions`, `processReviews`, `processComments` and
    `processIssuesAndPullRequests`.
  - Each is imperative code over already-fetched data. Each is proved to leave the map equal
    to the old map with that loop's award list applied.
  - The map also keeps its key order, the order `Object.entries` lists. Only `AddScore`'s
    contract states that a new login goes last; the loops' contracts say only that the order
    lists every key once. Tie order is not claimed anywhere.
- `Pagination`: `fetchAllItems` as a loop over a page oracle.
  - Pages hold 100 entries and are numbered from 1.
  - Serving a finite result set of `n` entries returns all of it, in order, after
    `n / 100 + 1` requests.
- `Ranking`: the list, sort and `top` step of `getContributorScores`.
  - The result is a permutation of the map's entries in non-increasing score order.
  - With a positive `top` it is the `top` best. A negative `top` drops the last `-top`
    entries, as `slice` does. Every login left out scores no more than the last one kept.
- `Percentages`: `getContributorPercentages` in exact arithmetic.
  - Percentages are integer hundredths of a percent, and `Math.round(x)` is `floor(x + 1/2)`.
  - Every entry after the first gets its rounded share.
  - The first entry takes the residual, so the sum is exactly 10000 hundredths.
- `Roles`: `determineRole` and the filter and map of `getMaintainers`.
- `Leaderboard`: `getContributorScores` end to end, over a collaborator listing and the
  fetched items.

The first entry takes the whole rounding residual, so its percentage can be negative even
when every score is positive. `Percentages.EqualScoresFirstNegative` shows this for 160 equal
scores: each other entry rounds 0.625% up to 0.63%, and the first is left with -0.17%.

## Model

| member | source | states |
|---|---|---|
| Exclusion.ShouldExcludeLogin | src/github.ts:9-13 | a login is excluded exactly when `[bot]` occurs in it; the two listed logins are covered by that test |
| Exclusion.Contains | src/github.ts:12 | `includes` is true exactly when the substring occurs at some position |
| Exclusion.PlainLoginNotExcluded | src/github.ts:11-13 | a login without `[` is never excluded |
| ScoreSpec.AddScore | src/github.ts:133-135 | the login's score becomes its old score (0 when absent) plus the points; the key set gains the login; every other login keeps its score |
| Types.CreatedWeight | src/types.ts:17-25 | the creation weight (issue 10, pull request 20) is positive, and larger for a pull request |
| Types.CommentWeight | src/types.ts:17-25 | the comment weight (issue 5, pull request 10) is positive, and larger for a pull request |
| Types.ReactionWeight | src/types.ts:17-25 | the reaction weight (issue 2, pull request 3) is positive, and larger for a pull request |
| ScoreSpec.HasThumbsDown | src/github.ts:69-71 | the `.some` veto test holds exactly when some reaction is a maintainer's `-1` |
| ScoreSpec.IsPositive | src/github.ts:119 | a positive reaction content is never a `-1` |
| ScoreSpec.Qualifies | src/github.ts:118-119 | a reaction that earns points is never a `-1` and never from an excluded user |
| ScoreSpec.CreationAward | src/github.ts:69-75 | at most one award, the creation weight to the item's author, given exactly when no maintainer vetoed the item |
| ScoreSpec.ReactionAwards | src/github.ts:116-123 | one award per qualifying reaction (non-excluded user, `+1`/`heart`/`hooray`), each to the item creator with the reaction weight for issues or pull requests |
| ScoreSpec.ReviewAwards | src/github.ts:125-131 | at most one award per review, each positive and to a non-excluded login |
| ScoreSpec.CommentAward | src/github.ts:95-113 | one comment's awards are positive and go to non-excluded logins |
| ScoreSpec.CommentAwards | src/github.ts:87-114 | all comments' awards are positive and go to non-excluded logins |
| ScoreSpec.ItemAwards | src/github.ts:61-84 | one item's awards are positive and go to non-excluded logins |
| ScoreSpec.AllAwards | src/github.ts:52-85 | the awards of all items are positive and go to non-excluded logins |
| ScoreSpec.QualifyingCount | src/github.ts:118-119 | no more qualifying reactions than reactions |
| ScoreSpec.ReviewCount | src/github.ts:126-128 | no more counted reviews than reviews |
| ScoreProps.ApplyAppend | src/github.ts:61-84 | applying two award lists in sequence equals applying their concatenation |
| ScoreProps.ApplySnoc | src/github.ts:133-135 | applying one more award is one more `addScore` |
| ScoreProps.CreditAppend | src/github.ts:61-84 | a login's credit from two lists is the sum of its credits |
| ScoreProps.ApplyCredit | src/github.ts:133-135 | after applying awards, every login's score is its old score plus its credit, and the keys are the old keys plus the recipients |
| ScoreProps.RewardingCredit | src/github.ts:61-131 | with positive awards to non-excluded logins, credit is never negative, every recipient is not excluded and has positive credit, and an excluded login gets nothing |
| ScoreProps.ReactionCredit | src/github.ts:116-123 | the creator earns the reaction weight times the number of qualifying reactions; nobody else earns anything from them |
| ScoreProps.ReviewCredit | src/github.ts:125-131 | a login earns 15 points for each of its reviews, none when it is excluded |
| ScoreProps.CommentCredit | src/github.ts:95-113 | the credit of one comment's awards equals the closed-form comment points |
| ScoreProps.CommentsCredit | src/github.ts:87-114 | the credit of all comments' awards equals the sum of the closed-form comment points |
| ScoreProps.ItemCredit | src/github.ts:61-84 | the credit of one item's awards equals the closed-form item points (creation unless vetoed, comments, reactions, reviews for a pull request) |
| ScoreProps.AllCredit | src/github.ts:52-85 | the credit of all items' awards equals the closed-form total points |
| ScoreProps.ScoreOfLogin | src/github.ts:43 | after the item loop a login's score is its old score plus its total points, which are never negative; a newly scored login is not excluded, and an excluded login earns nothing |
| ScoreProps.ScoresPositive | src/github.ts:33-43 | starting from an empty map, every login on the board scores exactly its total points, which are positive |
| ScoreProps.UnscoredEarnNothing | src/github.ts:33-43 | a login the item loop never scores earns no points |
| ScoreProps.ScoresOnlyGrow | src/github.ts:133-135 | processing items never removes a login or lowers a score, and keeps a non-negative map non-negative |
| ScoreProps.KeptItems | src/github.ts:62 | every item with a non-excluded author is kept, as often as it is listed, and no other item |
| ScoreProps.ExcludedItemsAddNothing | src/github.ts:62 | items by excluded authors contribute no awards |
| ScoreProps.WithoutVetoes | src/github.ts:69-71 | dropping maintainers' `-1` reactions keeps every other reaction, as often as it is listed, and leaves no veto |
| ScoreProps.ThumbsDownIffVetoRemoved | src/github.ts:69-71 | the veto test holds exactly when dropping the vetoes removes a reaction |
| ScoreProps.WithoutVetoesKeepsQualifying | src/github.ts:69-71 | dropping the vetoes changes no reaction award |
| ScoreProps.ItemVetoOnlySuppressesCreation | src/github.ts:69-78 | a vetoed item earns its author exactly the creation weight less than the same item without vetoes; everything else it earns anyone is unchanged |
| ScoreProps.CommentVetoOnlySuppressesComment | src/github.ts:104-112 | a vetoed comment earns its author exactly the comment weight less than without vetoes; its reaction points are kept |
| ContributorMaps.ContributorMap.constructor | src/github.ts:33 | the board starts empty |
| ContributorMaps.ContributorMap.AddScore | src/github.ts:133-135 | the map becomes `ScoreSpec.AddScore` of the old map; a new login is listed last in key order |
| ContributorMaps.ContributorMap.ProcessReactions | src/github.ts:116-123 | the map becomes the old map with the reaction awards applied |
| ContributorMaps.ContributorMap.ProcessReviews | src/github.ts:125-131 | the map becomes the old map with the review awards applied |
| ContributorMaps.ContributorMap.ProcessComment | src/github.ts:96-112 | the map becomes the old map with one comment's awards applied |
| ContributorMaps.ContributorMap.ProcessComments | src/github.ts:87-114 | the map becomes the old map with all comments' awards applied |
| ContributorMaps.ContributorMap.ProcessItem | src/github.ts:62-83 | the map becomes the old map with one item's awards applied |
| ContributorMaps.ContributorMap.ProcessIssuesAndPullRequests | src/github.ts:52-85 | the map becomes the old map with the awards of all items applied, in order |
| Pagination.FetchAllItems | src/github.ts:137-151 | the result is pages 1 to `requests` concatenated; every page before the last one asked for was full (100 entries) and the last was not |
| Pagination.ServedFrom | src/github.ts:142-148 | draining a finite result set from page `first` yields its entries from `(first - 1) * 100` on |
| Pagination.ServedFull | src/github.ts:146 | every page of a finite result set before page `n / 100 + 1` is full |
| Pagination.DrainServed | src/github.ts:137-151 | draining a finite result set of `n` entries returns exactly that set, in order, after `n / 100 + 1` requests |
| Ranking.Insert | src/github.ts:47 | inserting into a sorted list keeps it sorted and adds exactly the new entry, as multisets |
| Ranking.InsertDistinct | src/github.ts:47 | inserting an entry with a new login keeps the logins distinct and adds exactly that login |
| Ranking.SortByScore | src/github.ts:47 | the sort yields a permutation of its input in non-increasing score order |
| Ranking.SortDistinct | src/github.ts:47 | sorting keeps the set of logins, and keeps distinct logins distinct |
| Ranking.TopCut | src/github.ts:49 | the result is a prefix of the input: all of it without `top`, the first `min(top, n)` entries for a positive `top`, and for a negative `top` all but the last `-top` |
| Ranking.Entries | src/github.ts:45-46 | one entry per key, in key order, with the key's score |
| Ranking.Ranked | src/github.ts:45-47 | every login of the map exactly once, with its score, in non-increasing score order, as a permutation of the entries |
| Ranking.RankedEntries | src/github.ts:45-47 | the sorted entries are exactly the map's keys with their scores |
| Ranking.EntriesCover | src/github.ts:45-46 | the entries cover every key, with no login twice |
| Ranking.Logins | src/github.ts:45-49 | the set of logins listed |
| Ranking.ContributorScores | src/github.ts:45-49 | the result is a prefix of the full ranking and ranks the map cut at `top`: keys with their scores, sorted, distinct; all of them without `top`, the `top` best for a positive `top`, all but the last `-top` for a negative one; no login left out outscores the last one kept |
| Ranking.PrefixRanksTop | src/github.ts:49 | the cut of a full ranking at `top` ranks the map cut at `top` |
| Ranking.LeftOutScoreNoMore | src/github.ts:49 | a login a prefix of the ranking leaves out scores no more than the prefix's last entry |
| Percentages.TotalAtLeastEach | src/github.ts:154 | the `reduce` total of non-negative scores is non-negative and at least every single score |
| Percentages.PercentageSum | src/github.ts:168 | the `reduce` total of the percentages; `SumAfterFirstChanged` and `GetContributorPercentages` state its properties |
| Percentages.TotalPositive | src/github.ts:154 | positive scores have a positive total, at least their number |
| Percentages.RoundedShare | src/github.ts:158-164 | the share in hundredths is `score / total * 10000` rounded half up; it lies in 0..10000 for a score between 0 and the total |
| Percentages.GetContributorPercentages | src/github.ts:153-176 | logins and scores are kept; every entry but the first holds its rounded share; a non-empty result adds up to exactly 100.00%; with non-negative scores every entry but the first lies between 0 and 100.00% |
| Percentages.SumAfterFirstChanged | src/github.ts:170-171 | changing the first entry changes the sum by the difference |
| Percentages.UniqueQuotient | src/github.ts:164 | the rounded share is the one integer between its bounds |
| Percentages.EqualShare | src/github.ts:158-164 | one of 160 equal scores rounds to 0.63% |
| Percentages.EqualScoresFirstNegative | src/github.ts:168-173 | with 160 equal scores the first percentage is -0.17% |
| Roles.DetermineRole | src/github.ts:196-201 | `Admin` exactly when admin; `Maintainer` exactly when maintain and not admin; `Collaborator` exactly when push alone; otherwise `Contributor` |
| Roles.ToMaintainer | src/github.ts:188-193 | the login and URLs are copied; the role is `role_name` when present, otherwise `DetermineRole` of the permissions, one of the three push roles |
| Roles.HasPush | src/github.ts:187 | `permissions?.push`: the permissions are listed and grant push |
| Roles.Pushers | src/github.ts:187 | a collaborator is kept exactly when its permissions grant push |
| Roles.PushersKeepCount | src/github.ts:187 | the filter keeps each collaborator with push as often as it is listed, and no other |
| Roles.GetMaintainers | src/github.ts:178-194 | position by position, one maintainer per kept collaborator of `Pushers`, each `ToMaintainer` of it |
| Roles.MaintainerLogins | src/github.ts:35 | the set of the maintainers' logins |
| Roles.MaintainersArePushers | src/github.ts:34-35 | a login is a maintainer login exactly when some listed collaborator with that login has push |
| Leaderboard.FinalScores | src/github.ts:33-43 | the map the item loop builds: its keys are exactly the logins the items earn points, each with those points |
| Leaderboard.GetContributorScores | src/github.ts:27-50 | the result ranks the map built from the items, cut at `top`, and is a prefix of a ranking of that whole map; every entry's score is the login's total points, which are positive, so the total of the result is positive |
| Leaderboard.RankedScoresPositive | src/github.ts:45-49 | every entry of a ranking of the final map scores its total points, which are positive, and so does the total |

## Left out

- GitHub API calls: the issue, comment, reaction, review and collaborator listings become
  inputs. `getMaintainers` is one unpaginated listing call, so it takes the collaborator list
  as given.
- `checkRateLimit` and `delay`: they only pause, so they are left out.
- `Promise.all`: the concurrent fetch of reactions and comments has no effect on the scores,
  which are added in program order.
- The default `since` lookup of the repository's creation date: it only filters what the
  issue listing returns, so it is part of the input.
- `index.ts`, the command-line front end, is not part of this model.
- Floating point: scores are integers, and so are all the weights. Percentages are kept as
  exact integer hundredths instead of IEEE doubles, and `Math.round` is `floor(x + 1/2)`.
- Percentages.GetContributorPercentages: needs a positive total for a non-empty list. The
  source divides by zero there and returns `NaN` entries. The ranked scores it receives are
  always positive (`Leaderboard.GetContributorScores`).
- Percentages.GetContributorPercentages: the last `Math.round` on the first entry is not
  modelled, because in exact hundredths the residual is already whole.
- Ranking.SortByScore: a stable insertion sort stands in for `Array.prototype.sort`. The
  proved properties are the permutation and the non-increasing order only. The relative
  order of ties is not claimed.
- Ranking.Entries: the key order of `Object.entries` is insertion order. JavaScript lists
  integer-like keys first. This matters only for tie order, which is not claimed.
- Ranking.TopCut: `top` is an integer, with 0 standing for every falsy value. A fractional
  `top` is not modelled.
- Pagination.FetchAllItems: `last` is a ghost page known not to be full, which bounds the
  loop. An endpoint that returns full pages forever is not modelled.
- ScoreSpec.AddScore: the score map is a plain JavaScript object, so `contributors[login] || 0`
  reads an inherited `Object.prototype` member for a login such as `constructor`, `toString`
  or `valueOf`. The source then concatenates strings. The sort's comparator returns `NaN`,
  which `sort` treats as a tie, so the order is unspecified. The `reduce` total becomes a
  string, and every percentage is `NaN`. The model treats every login as an ordinary key
  starting at 0.
- ScoreProps.KeptItems: its contract states which items are kept and how often, not that
  their order is kept.
- ScoreProps.WithoutVetoes: its contract states which reactions are kept and how often, not
  that their order is kept.
- Roles.Pushers: its contract states which collaborators are kept and how often, not that
  their listing order is kept.
- ContributorMaps.ContributorMap.ProcessIssuesAndPullRequests: its contract, like those of the
  other loops, states only that the key order lists every key once, not which order.
- Items with a missing `user` (deleted accounts) are not modelled; every record carries a
  login.
