/** The ranking step of `getContributorScores`: list the map's entries, sort them by
    descending score and optionally keep only the first `top` of them. */
module Ranking {
  import opened Types
  import ContributorMaps

  /** Scores never increase from one entry to the next. */
  predicate NonIncreasing(s: seq<Contributor>) {
    forall i, j :: 0 <= i < j < |s| ==> s[i].score >= s[j].score
  }

  /** No login occurs twice. */
  predicate DistinctLogins(s: seq<Contributor>) {
    forall i, j :: 0 <= i < j < |s| ==> s[i].login != s[j].login
  }

  /** Every entry scores at least `v`. */
  predicate AllAtLeast(s: seq<Contributor>, v: int) {
    forall i :: 0 <= i < |s| ==> s[i].score >= v
  }

  /** The logins listed in `s`. */
  function Logins(s: seq<Contributor>): (r: set<string>)
    ensures forall l :: l in r <==> exists i :: 0 <= i < |s| && s[i].login == l
  {
    set i | 0 <= i < |s| :: s[i].login
  }

  /** Place `c` into the sorted list `s`, after every entry whose score is at least its own,
      as a stable sort does with the entry that came last. */
  function Insert(s: seq<Contributor>, c: Contributor): (r: seq<Contributor>)
    requires NonIncreasing(s)
    ensures NonIncreasing(r)
    ensures multiset(r) == multiset(s) + multiset{c}
    ensures |r| == |s| + 1
    ensures forall v :: AllAtLeast(s, v) && c.score >= v ==> AllAtLeast(r, v)
    decreases |s|
  {
    if s == [] then [c]
    else if s[|s| - 1].score >= c.score then s + [c]
    else
      var init, last := s[..|s| - 1], s[|s| - 1];
      assert s == init + [last];
      assert AllAtLeast(init, last.score);
      Insert(init, c) + [last]
  }

  /** Appending an entry whose login is new keeps the logins distinct and adds that login. */
  lemma DistinctSnoc(s: seq<Contributor>, c: Contributor)
    requires DistinctLogins(s) && c.login !in Logins(s)
    ensures DistinctLogins(s + [c])
    ensures Logins(s + [c]) == Logins(s) + {c.login}
  {
    var r := s + [c];
    forall i | 0 <= i < |s| ensures r[i].login != c.login {
      assert s[i].login in Logins(s);
    }
    assert Logins(r) == Logins(s) + {c.login} by {
      forall l | l in Logins(s) ensures l in Logins(r) {
        var i :| 0 <= i < |s| && s[i].login == l;
        assert r[i].login == l;
      }
      assert r[|s|].login == c.login;
    }
  }

  /** Inserting an entry whose login is new keeps the logins distinct and adds that login. */
  lemma {:induction false} InsertDistinct(s: seq<Contributor>, c: Contributor)
    requires NonIncreasing(s) && DistinctLogins(s) && c.login !in Logins(s)
    ensures DistinctLogins(Insert(s, c))
    ensures Logins(Insert(s, c)) == Logins(s) + {c.login}
    decreases |s|
  {
    if s == [] {
      assert Insert(s, c) == [] + [c];
      DistinctSnoc([], c);
    } else if s[|s| - 1].score >= c.score {
      DistinctSnoc(s, c);
    } else {
      var init, last := s[..|s| - 1], s[|s| - 1];
      assert s == init + [last];
      DistinctSnoc(init, last);
      InsertDistinct(init, c);
      DistinctSnoc(Insert(init, c), last);
    }
  }

  /** `.sort((a, b) => b.score - a.score)`, as a stable insertion sort: the same entries,
      by non-increasing score. */
  function SortByScore(s: seq<Contributor>): (r: seq<Contributor>)
    ensures NonIncreasing(r)
    ensures multiset(r) == multiset(s)
    ensures |r| == |s|
    decreases |s|
  {
    if s == [] then []
    else
      var init, last := s[..|s| - 1], s[|s| - 1];
      assert s == init + [last];
      Insert(SortByScore(init), last)
  }

  /** Sorting keeps the logins, and keeps them distinct. */
  lemma {:induction false} SortDistinct(s: seq<Contributor>)
    requires DistinctLogins(s)
    ensures DistinctLogins(SortByScore(s))
    ensures Logins(SortByScore(s)) == Logins(s)
    decreases |s|
  {
    if s != [] {
      var init, last := s[..|s| - 1], s[|s| - 1];
      assert s == init + [last];
      assert Logins(s) == Logins(init) + {last.login};
      SortDistinct(init);
      InsertDistinct(SortByScore(init), last);
    }
  }

  /** `top ? sorted.slice(0, top) : sorted`. `top == 0` stands for every falsy value
      (absent, 0, NaN); a negative `top` counts from the end, as `slice` does. */
  function TopCut(s: seq<Contributor>, top: int): (r: seq<Contributor>)
    ensures |r| <= |s| && r == s[..|r|]
    ensures top == 0 ==> r == s
    ensures top > 0 ==> |r| == if top < |s| then top else |s|
    ensures top < 0 ==> |r| == if |s| + top > 0 then |s| + top else 0
  {
    if top == 0 then s
    else if top > 0 then (if top < |s| then s[..top] else s)
    else (if |s| + top > 0 then s[..|s| + top] else [])
  }

  /** `Object.entries(contributors).map(...)`: one entry per login, in the map's key order. */
  function Entries(scores: map<string, int>, order: seq<string>): (r: seq<Contributor>)
    requires forall k :: k in order ==> k in scores
    ensures |r| == |order|
    ensures forall i :: 0 <= i < |r| ==> r[i] == Contributor(order[i], scores[order[i]])
  {
    seq(|order|, i requires 0 <= i < |order| => Contributor(order[i], scores[order[i]]))
  }

  /** The full ranking: every login of the map exactly once, with its score, by
      non-increasing score. */
  function Ranked(scores: map<string, int>, order: seq<string>): (r: seq<Contributor>)
    requires ContributorMaps.Distinct(order)
    requires forall k :: k in scores <==> k in order
    ensures NonIncreasing(r)
    ensures multiset(r) == multiset(Entries(scores, order))
    ensures |r| == |scores|
    ensures forall i :: 0 <= i < |r| ==> r[i].login in scores && r[i].score == scores[r[i].login]
    ensures forall k :: k in scores ==> exists i :: 0 <= i < |r| && r[i].login == k
    ensures DistinctLogins(r)
  {
    RankedEntries(scores, order);
    EntriesCover(scores, order);
    SortDistinct(Entries(scores, order));
    SortByScore(Entries(scores, order))
  }

  lemma RankedEntries(scores: map<string, int>, order: seq<string>)
    requires ContributorMaps.Distinct(order)
    requires forall k :: k in scores <==> k in order
    ensures var r := SortByScore(Entries(scores, order));
      && |r| == |scores|
      && (forall i :: 0 <= i < |r| ==> r[i].login in scores && r[i].score == scores[r[i].login])
      && (forall k :: k in scores ==> exists i :: 0 <= i < |r| && r[i].login == k)
  {
    var entries := Entries(scores, order);
    var r := SortByScore(entries);
    EntriesCover(scores, order);
    CardOfDistinct(scores, order);
    forall i | 0 <= i < |r| ensures r[i].login in scores && r[i].score == scores[r[i].login] {
      assert r[i] in multiset(entries);
      var j :| 0 <= j < |entries| && entries[j] == r[i];
    }
    forall k | k in scores ensures exists i :: 0 <= i < |r| && r[i].login == k {
      var x := Contributor(k, scores[k]);
      assert x in multiset(entries);
      assert x in r;
      var i :| 0 <= i < |r| && r[i] == x;
      assert r[i].login == k;
    }
  }

  /** Every key is listed, with its score, and no login twice. */
  lemma EntriesCover(scores: map<string, int>, order: seq<string>)
    requires ContributorMaps.Distinct(order)
    requires forall k :: k in scores <==> k in order
    ensures DistinctLogins(Entries(scores, order))
    ensures forall k :: k in scores ==> Contributor(k, scores[k]) in Entries(scores, order)
  {
    var entries := Entries(scores, order);
    forall k | k in scores ensures Contributor(k, scores[k]) in entries {
      var i :| 0 <= i < |order| && order[i] == k;
      assert entries[i] == Contributor(k, scores[k]);
    }
  }

  /** A list of the keys without repeats is as long as the map. */
  lemma CardOfDistinct(scores: map<string, int>, order: seq<string>)
    requires ContributorMaps.Distinct(order)
    requires forall k :: k in scores <==> k in order
    ensures |scores| == |order|
  {
    DistinctCard(order);
    assert scores.Keys == set k | k in order;
  }

  /** A sequence without repeats has as many distinct elements as positions. */
  lemma {:induction false} DistinctCard(order: seq<string>)
    requires ContributorMaps.Distinct(order)
    ensures |set k | k in order| == |order|
    decreases |order|
  {
    if order != [] {
      var init := order[..|order| - 1];
      DistinctCard(init);
      assert (set k | k in order) == (set k | k in init) + {order[|order| - 1]};
      assert order[|order| - 1] !in init;
    }
  }

  /** `r` ranks the map `scores` cut at `top`: every entry is a key with its score, no login
      twice, by non-increasing score; without a `top` every key is listed, with a positive
      `top` the `top` best are (all of them when there are fewer), a negative `top` drops
      the last `-top` entries, and a key left out scores no more than the last entry kept. */
  ghost predicate RanksTop(r: seq<Contributor>, scores: map<string, int>, top: int) {
    && (forall i :: 0 <= i < |r| ==> r[i].login in scores && r[i].score == scores[r[i].login])
    && NonIncreasing(r)
    && DistinctLogins(r)
    && (top == 0 ==> |r| == |scores|)
    && (top > 0 ==> |r| == if top < |scores| then top else |scores|)
    && (top < 0 ==> |r| == if |scores| + top > 0 then |scores| + top else 0)
    && (forall k :: k in scores && k !in Logins(r) ==> |r| == 0 || scores[k] <= r[|r| - 1].score)
  }

  /** The ranking step of `getContributorScores`: the full ranking, or its first `top`
      entries. The result is a prefix of the full ranking, so tied entries keep their
      relative order. */
  function ContributorScores(scores: map<string, int>, order: seq<string>, top: int): (r: seq<Contributor>)
    requires ContributorMaps.Distinct(order)
    requires forall k :: k in scores <==> k in order
    ensures |r| <= |scores| && r == Ranked(scores, order)[..|r|]
    ensures RanksTop(r, scores, top)
  {
    var ranked := Ranked(scores, order);
    var r := TopCut(ranked, top);
    PrefixRanksTop(ranked, r, scores, top);
    r
  }

  /** The cut of the full ranking at `top` ranks the map cut at `top`. */
  lemma PrefixRanksTop(full: seq<Contributor>, r: seq<Contributor>, scores: map<string, int>, top: int)
    requires NonIncreasing(full) && DistinctLogins(full) && |full| == |scores|
    requires forall k :: k in scores ==> exists j :: 0 <= j < |full| && full[j].login == k
    requires forall j :: 0 <= j < |full| ==> full[j].login in scores && full[j].score == scores[full[j].login]
    requires r == TopCut(full, top)
    ensures RanksTop(r, scores, top)
  {
    assert forall i :: 0 <= i < |r| ==> r[i] == full[i];
    LeftOutScoreNoMore(full, r, scores);
  }

  /** A key that a prefix of the full ranking leaves out scores no more than its last entry. */
  lemma LeftOutScoreNoMore(full: seq<Contributor>, r: seq<Contributor>, scores: map<string, int>)
    requires NonIncreasing(full) && |r| <= |full| && r == full[..|r|]
    requires forall k :: k in scores ==> exists j :: 0 <= j < |full| && full[j].login == k
    requires forall j :: 0 <= j < |full| ==> full[j].login in scores && full[j].score == scores[full[j].login]
    ensures forall k :: k in scores && k !in Logins(r) ==> |r| == 0 || scores[k] <= r[|r| - 1].score
  {
    forall k | k in scores && k !in Logins(r) && |r| > 0 ensures scores[k] <= r[|r| - 1].score {
      var j :| 0 <= j < |full| && full[j].login == k;
      assert forall i :: 0 <= i < |r| ==> full[i] == r[i] && r[i].login != k;
      assert j >= |r|;
      assert full[|r| - 1].score >= full[j].score;
    }
  }
}
