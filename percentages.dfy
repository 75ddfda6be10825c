/** `getContributorPercentages`, in exact arithmetic. A percentage is kept as an integer
    number of hundredths of a percent, and `Math.round(x)` is `floor(x + 1/2)`. */
module Percentages {
  import opened Types

  /** The `reduce` that adds up all scores. */
  function TotalScore(cs: seq<Contributor>): int
    decreases |cs|
  {
    if cs == [] then 0 else TotalScore(cs[..|cs| - 1]) + cs[|cs| - 1].score
  }

  /** The total of non-negative scores is non-negative and at least every single score. */
  lemma {:induction false} TotalAtLeastEach(cs: seq<Contributor>)
    requires forall i :: 0 <= i < |cs| ==> cs[i].score >= 0
    ensures TotalScore(cs) >= 0
    ensures forall i :: 0 <= i < |cs| ==> cs[i].score <= TotalScore(cs)
    decreases |cs|
  {
    if cs != [] {
      var init := cs[..|cs| - 1];
      assert forall i :: 0 <= i < |init| ==> init[i] == cs[i];
      TotalAtLeastEach(init);
    }
  }

  /** Positive scores have a positive total, so the percentages of a non-empty leaderboard
      of positive scores are defined. */
  lemma {:induction false} TotalPositive(cs: seq<Contributor>)
    requires forall i :: 0 <= i < |cs| ==> cs[i].score > 0
    ensures cs != [] ==> TotalScore(cs) > 0
    ensures TotalScore(cs) >= |cs|
    decreases |cs|
  {
    if cs != [] {
      TotalPositive(cs[..|cs| - 1]);
    }
  }

  /** The `reduce` that adds up all percentages, in hundredths. */
  function PercentageSum(ps: seq<ContributorPercentage>): int
    decreases |ps|
  {
    if ps == [] then 0 else PercentageSum(ps[..|ps| - 1]) + ps[|ps| - 1].percentage
  }

  /** `Math.round(score / total * 100 * 100)`: the share `score / total` in hundredths of a
      percent, rounded to the nearest integer, halves upwards. */
  function RoundedShare(score: int, total: int): (h: int)
    requires total > 0
    ensures 2 * total * h <= 20000 * score + total < 2 * total * h + 2 * total
    ensures score >= 0 ==> h >= 0
    ensures score <= total ==> h <= 10000
  {
    var h := (20000 * score + total) / (2 * total);
    ShareBounds(score, total, h);
    h
  }

  /** The bounds of a rounded share: between 0 and 100.00% for a score between 0 and the total. */
  lemma ShareBounds(score: int, total: int, h: int)
    requires total > 0 && 2 * total * h <= 20000 * score + total < 2 * total * h + 2 * total
    ensures score >= 0 ==> h >= 0
    ensures score <= total ==> h <= 10000
  {
    var b := 2 * total;
    MulAtLeast(b, -h);
    assert b * (-h) == -(b * h);
    MulAtLeast(b, h - 10000);
    assert b * (h - 10000) == b * h - b * 10000;
  }

  /** `getContributorPercentages`: every entry keeps its login and score and gets its rounded
      share; then the first entry takes the rounding residual, so that the shares add up to
      exactly 100.00%. Its last rounding is the identity here, since the residual is already
      a whole number of hundredths. An empty input gives an empty output. */
  method GetContributorPercentages(contributors: seq<Contributor>) returns (percentages: seq<ContributorPercentage>)
    requires contributors == [] || TotalScore(contributors) > 0
    ensures |percentages| == |contributors|
    ensures forall i :: 0 <= i < |percentages| ==>
              percentages[i].login == contributors[i].login && percentages[i].score == contributors[i].score
    ensures forall i :: 1 <= i < |percentages| ==>
              percentages[i].percentage == RoundedShare(contributors[i].score, TotalScore(contributors))
    ensures |percentages| > 0 ==> PercentageSum(percentages) == 10000
    ensures (forall i :: 0 <= i < |contributors| ==> contributors[i].score >= 0) ==>
              forall i :: 1 <= i < |percentages| ==> 0 <= percentages[i].percentage <= 10000
  {
    var totalScore := TotalScore(contributors);
    if contributors == [] {
      return [];
    }
    if forall i :: 0 <= i < |contributors| ==> contributors[i].score >= 0 {
      TotalAtLeastEach(contributors);
    }
    percentages := seq(|contributors|, i requires 0 <= i < |contributors| =>
      ContributorPercentage(contributors[i].login, contributors[i].score,
        RoundedShare(contributors[i].score, totalScore)));
    var totalPercentage := PercentageSum(percentages);
    var first := percentages[0];
    var adjusted := first.(percentage := first.percentage + 10000 - totalPercentage);
    SumAfterFirstChanged(percentages, adjusted);
    percentages := percentages[0 := adjusted];
  }

  /** Changing the first entry changes the sum by the difference. */
  lemma {:induction false} SumAfterFirstChanged(ps: seq<ContributorPercentage>, x: ContributorPercentage)
    requires |ps| > 0
    ensures PercentageSum(ps[0 := x]) == PercentageSum(ps) - ps[0].percentage + x.percentage
    decreases |ps|
  {
    if |ps| > 1 {
      var init := ps[..|ps| - 1];
      SumAfterFirstChanged(init, x);
      assert ps[0 := x][..|ps| - 1] == init[0 := x];
    } else {
      assert ps[0 := x][..0] == [];
    }
  }

  /** A positive multiple of `b` is at least `b`. */
  lemma {:induction false} MulAtLeast(b: int, z: int)
    requires b > 0
    ensures z >= 1 ==> b * z >= b
    decreases if z > 0 then z else 0
  {
    if z > 1 {
      MulAtLeast(b, z - 1);
      assert b * z == b * (z - 1) + b;
    }
  }

  /** A quotient is determined by the bounds `b * h <= b * q < b * h + b`. */
  lemma UniqueQuotient(b: int, h: int, q: int)
    requires b > 0 && b * h <= b * q < b * h + b
    ensures h == q
  {
    MulAtLeast(b, h - q);
    MulAtLeast(b, q - h);
    assert b * (h - q) == b * h - b * q;
    assert b * (q - h) == b * q - b * h;
  }

  /** One of 160 equal scores is 62.5 hundredths of the total, which rounds up to 63. */
  lemma EqualShare(score: int, n: nat)
    requires score > 0 && n == 160
    ensures RoundedShare(score, n * score) == 63
  {
    var t := n * score;
    assert t == 160 * score;
    var h := RoundedShare(score, t);
    var b := 2 * t;
    assert b * h <= 20000 * score + t < b * h + b;
    assert 20000 * score + t == b * 63;
    UniqueQuotient(b, h, 63);
  }

  /** The sum of a list whose entries after the first all hold `p`. */
  lemma {:induction false} SumOfRest(ps: seq<ContributorPercentage>, p: int)
    requires |ps| > 0
    requires forall i :: 1 <= i < |ps| ==> ps[i].percentage == p
    ensures PercentageSum(ps) == ps[0].percentage + (|ps| - 1) * p
    decreases |ps|
  {
    if |ps| > 1 {
      SumOfRest(ps[..|ps| - 1], p);
    }
  }

  /** The total of n equal scores. */
  lemma {:induction false} TotalOfEqual(cs: seq<Contributor>, score: int)
    requires forall i :: 0 <= i < |cs| ==> cs[i].score == score
    ensures TotalScore(cs) == |cs| * score
    decreases |cs|
  {
    if cs != [] {
      var init := cs[..|cs| - 1];
      TotalOfEqual(init, score);
      assert |cs| * score == |init| * score + score;
    }
  }

  /** The residual can push the first entry below zero even for a leaderboard sorted by
      score: with 160 equal scores every other entry rounds 62.5 hundredths up to 63, and
      the first entry is left with 100.00 - 159 * 0.63 = -0.17%. */
  method EqualScoresFirstNegative(contributors: seq<Contributor>) returns (percentages: seq<ContributorPercentage>)
    requires |contributors| == 160
    requires forall i :: 0 <= i < |contributors| ==> contributors[i].score == contributors[0].score > 0
    ensures |percentages| == 160
    ensures percentages[0].percentage == -17
  {
    var score := contributors[0].score;
    TotalOfEqual(contributors, score);
    percentages := GetContributorPercentages(contributors);
    EqualShare(score, 160);
    SumOfRest(percentages, 63);
  }
}
