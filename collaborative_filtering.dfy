/**
  User-based collaborative filtering as CollaborativeFiltering.PredictRating
  does it: the rating a user would give an item is the average of the other
  users' ratings of that item, each weighted by the similarity between that
  user and the target user, and normalised by the sum of the absolute
  similarities. The similarity strategy is a parameter (a pure function of the
  two users' rating maps); ratings are reals.
*/
module CollaborativeFiltering {

  /** The ratings of one user, by item. */
  type UserRatings = map<string, real>

  /** The ratings of every user, by user. */
  type RatingTable = map<string, UserRatings>

  /** A similarity strategy: a score for two users' ratings. */
  type Similarity = (UserRatings, UserRatings) -> real

  /** Below or at this total absolute similarity the signal is too weak and the prediction is 0 (1e-10). */
  const Threshold: real := 0.0000000001

  function Abs(x: real): real {
    if x < 0.0 then -x else x
  }

  /** A user consulted for the prediction: another user who has rated the item. */
  predicate IsNeighbour(ratings: RatingTable, targetItem: string, targetUser: string, u: string) {
    u in ratings && u != targetUser && targetItem in ratings[u]
  }

  /** A neighbour's contribution to the weighted sum: its similarity times its rating. */
  function Weight(similarity: real, rating: real): real {
    similarity * rating
  }

  /** What user u adds to the total absolute similarity. */
  function AbsTerm(ratings: RatingTable, targetItem: string, targetUser: string, sim: Similarity, u: string): real {
    if targetUser in ratings && IsNeighbour(ratings, targetItem, targetUser, u)
    then Abs(sim(ratings[targetUser], ratings[u]))
    else 0.0
  }

  /** What user u adds to the weighted sum: its similarity times its rating of the item. */
  function WeightTerm(ratings: RatingTable, targetItem: string, targetUser: string, sim: Similarity, u: string): real {
    if targetUser in ratings && IsNeighbour(ratings, targetItem, targetUser, u)
    then Weight(sim(ratings[targetUser], ratings[u]), ratings[u][targetItem])
    else 0.0
  }

  function AbsTerms(ratings: RatingTable, targetItem: string, targetUser: string, sim: Similarity): string -> real {
    u => AbsTerm(ratings, targetItem, targetUser, sim, u)
  }

  function WeightTerms(ratings: RatingTable, targetItem: string, targetUser: string, sim: Similarity): string -> real {
    u => WeightTerm(ratings, targetItem, targetUser, sim, u)
  }

  /** The sum of f over the users of s, in no particular order. */
  ghost function SumOver(s: set<string>, f: string -> real): real
    decreases |s|
  {
    if s == {} then 0.0
    else
      var x :| x in s;
      f(x) + SumOver(s - {x}, f)
  }

  /** Any user of s may be summed first. */
  lemma {:induction false} SumOverRemove(s: set<string>, f: string -> real, y: string)
    requires y in s
    ensures SumOver(s, f) == f(y) + SumOver(s - {y}, f)
    decreases |s|
  {
    var x :| x in s && SumOver(s, f) == f(x) + SumOver(s - {x}, f);
    if x != y {
      SumOverRemove(s - {x}, f, y);
      SumOverRemove(s - {y}, f, x);
      assert s - {x} - {y} == s - {y} - {x};
    }
  }

  /** Functions that agree on s have the same sum over s. */
  lemma {:induction false} SumOverAgree(s: set<string>, f: string -> real, g: string -> real)
    requires forall x :: x in s ==> f(x) == g(x)
    ensures SumOver(s, f) == SumOver(s, g)
    decreases |s|
  {
    if s != {} {
      var y :| y in s;
      SumOverRemove(s, f, y);
      SumOverRemove(s, g, y);
      SumOverAgree(s - {y}, f, g);
    }
  }

  /** f lies between lo times g and hi times g. */
  predicate ScaledBetween(lo: real, hi: real, g: real, f: real) {
    lo * g <= f <= hi * g
  }

  lemma AddScaledBetween(lo: real, hi: real, ga: real, gb: real, fa: real, fb: real)
    requires ScaledBetween(lo, hi, ga, fa) && ScaledBetween(lo, hi, gb, fb)
    ensures ScaledBetween(lo, hi, ga + gb, fa + fb)
  {
    assert lo * (ga + gb) == lo * ga + lo * gb;
    assert hi * (ga + gb) == hi * ga + hi * gb;
  }

  /** Pointwise bounds lo * g <= f <= hi * g carry over to the sums. */
  lemma {:induction false} SumOverBounds(s: set<string>, f: string -> real, g: string -> real, lo: real, hi: real)
    requires forall x :: x in s ==> ScaledBetween(lo, hi, g(x), f(x))
    ensures ScaledBetween(lo, hi, SumOver(s, g), SumOver(s, f))
    decreases |s|
  {
    if s != {} {
      var y :| y in s;
      SumOverRemove(s, f, y);
      SumOverRemove(s, g, y);
      SumOverBounds(s - {y}, f, g, lo, hi);
      AddScaledBetween(lo, hi, g(y), SumOver(s - {y}, g), f(y), SumOver(s - {y}, f));
    }
  }

  /** Terms that are all 0 sum to 0. */
  lemma {:induction false} SumOverZero(s: set<string>, f: string -> real)
    requires forall x :: x in s ==> f(x) == 0.0
    ensures SumOver(s, f) == 0.0
    decreases |s|
  {
    if s != {} {
      var y :| y in s;
      SumOverRemove(s, f, y);
      SumOverZero(s - {y}, f);
    }
  }

  /** Terms that are all nonnegative have a nonnegative sum. */
  lemma {:induction false} SumOverNonnegative(s: set<string>, f: string -> real)
    requires forall x :: x in s ==> f(x) >= 0.0
    ensures SumOver(s, f) >= 0.0
    decreases |s|
  {
    if s != {} {
      var y :| y in s;
      SumOverRemove(s, f, y);
      SumOverNonnegative(s - {y}, f);
    }
  }

  /** Σ |sim| over the neighbours. */
  ghost function TotalAbsSim(ratings: RatingTable, targetItem: string, targetUser: string, sim: Similarity): real {
    SumOver(ratings.Keys, AbsTerms(ratings, targetItem, targetUser, sim))
  }

  /** Σ sim · rating over the neighbours. */
  ghost function WeightedSum(ratings: RatingTable, targetItem: string, targetUser: string, sim: Similarity): real {
    SumOver(ratings.Keys, WeightTerms(ratings, targetItem, targetUser, sim))
  }

  /**
    The predicted rating: 0 for an unknown user or too weak a signal, else the
    weighted average. A nonzero prediction needs a known user, a total above
    the threshold and a nonzero weighted sum.
  */
  ghost function Prediction(ratings: RatingTable, targetItem: string, targetUser: string, sim: Similarity): (p: real)
    ensures p != 0.0 ==> targetUser in ratings && TotalAbsSim(ratings, targetItem, targetUser, sim) > Threshold
                         && WeightedSum(ratings, targetItem, targetUser, sim) != 0.0
  {
    if targetUser !in ratings then 0.0
    else
      var total := TotalAbsSim(ratings, targetItem, targetUser, sim);
      if total <= Threshold then 0.0 else WeightedSum(ratings, targetItem, targetUser, sim) / total
  }

  /** No user occurs twice. */
  predicate NoDuplicates(users: seq<string>) {
    forall i, j :: 0 <= i < j < |users| ==> users[i] != users[j]
  }

  /** The users visited so far, in the order visited: the last one visited is outermost. */
  datatype Visits = NoVisits | Then(before: Visits, last: string)

  /** The two accumulators of PredictRating, and the users whose similarity it has computed. */
  datatype Accumulators = Accumulators(totalAbsSim: real, weightedSum: real, consulted: seq<string>)

  /**
    One iteration of the loop of PredictRating, on user u: anyone but a
    neighbour is skipped, a neighbour of similarity 0 adds to neither sum,
    and no iteration lowers the total absolute similarity.
  */
  function Visit(ratings: RatingTable, targetItem: string, targetUser: string, sim: Similarity,
                 acc: Accumulators, u: string): (r: Accumulators)
    ensures !(targetUser in ratings && IsNeighbour(ratings, targetItem, targetUser, u)) ==> r == acc
    ensures targetUser in ratings && u in ratings && sim(ratings[targetUser], ratings[u]) == 0.0 ==>
              r.totalAbsSim == acc.totalAbsSim && r.weightedSum == acc.weightedSum
    ensures r.totalAbsSim >= acc.totalAbsSim
  {
    if targetUser in ratings && IsNeighbour(ratings, targetItem, targetUser, u) then
      var s := sim(ratings[targetUser], ratings[u]);
      if s == 0.0 then acc.(consulted := acc.consulted + [u])
      else Accumulators(acc.totalAbsSim + Abs(s), acc.weightedSum + Weight(s, ratings[u][targetItem]), acc.consulted + [u])
    else acc
  }

  /** The accumulators after visiting the users of order, first to last. */
  function Replay(ratings: RatingTable, targetItem: string, targetUser: string, sim: Similarity,
                  order: Visits): Accumulators
  {
    match order
    case NoVisits => Accumulators(0.0, 0.0, [])
    case Then(before, u) => Visit(ratings, targetItem, targetUser, sim, Replay(ratings, targetItem, targetUser, sim, before), u)
  }

  /**
    Visiting a neighbour of similarity s and rating r consults it and adds
    |s| and s * r to the accumulators, or nothing when s is 0; visiting any
    other user changes nothing.
  */
  lemma ReplayNext(ratings: RatingTable, targetItem: string, targetUser: string, sim: Similarity,
                   order: Visits, acc: Accumulators, acc': Accumulators, u: string, s: real, r: real)
    requires acc == Replay(ratings, targetItem, targetUser, sim, order)
    requires targetUser in ratings && IsNeighbour(ratings, targetItem, targetUser, u) ==>
               s == sim(ratings[targetUser], ratings[u]) && r == ratings[u][targetItem] &&
               acc' == if s == 0.0 then Accumulators(acc.totalAbsSim, acc.weightedSum, acc.consulted + [u])
                       else Accumulators(acc.totalAbsSim + Abs(s), acc.weightedSum + s * r, acc.consulted + [u])
    requires !(targetUser in ratings && IsNeighbour(ratings, targetItem, targetUser, u)) ==> acc' == acc
    ensures acc' == Replay(ratings, targetItem, targetUser, sim, Then(order, u))
  {
    assert Weight(s, r) == s * r;
  }

  /**
    CollaborativeFiltering.PredictRating: one pass over the users, in any
    order, skipping the target user, users who have not rated the item and
    users of similarity 0, and accumulating Σ |sim| and Σ sim · rating. The
    ghost result records the users whose similarity was computed, in order.
  */
  method PredictRating(targetItem: string, targetUser: string, ratings: RatingTable, sim: Similarity)
    returns (predicted: real, ghost consulted: seq<string>)
    ensures predicted == Prediction(ratings, targetItem, targetUser, sim)
    ensures targetUser !in ratings ==> predicted == 0.0 && consulted == []
    ensures forall u :: u in consulted <==> targetUser in ratings && IsNeighbour(ratings, targetItem, targetUser, u)
    ensures NoDuplicates(consulted)
  {
    if targetUser !in ratings {
      return 0.0, [];
    }
    var targetUserRatings := ratings[targetUser];
    var totalAbsSim, weightedSum := 0.0, 0.0;
    consulted := [];
    var remaining := ratings.Keys;
    // The users visited so far, in the order visited and as a set
    ghost var order := NoVisits;
    ghost var done: set<string> := {};
    while remaining != {}
      invariant done <= ratings.Keys && remaining == ratings.Keys - done
      invariant Enumerates(order, done)
      invariant Accumulators(totalAbsSim, weightedSum, consulted) == Replay(ratings, targetItem, targetUser, sim, order)
      decreases |remaining|
    {
      var otherUser :| otherUser in remaining;
      var otherUserRatings := ratings[otherUser];
      ghost var before := Accumulators(totalAbsSim, weightedSum, consulted);
      // The target user, users who have not rated the item and users of
      // similarity 0 are skipped
      if otherUser != targetUser && targetItem in otherUserRatings {
        var neighborRating := otherUserRatings[targetItem];
        var s := sim(targetUserRatings, otherUserRatings);
        consulted := consulted + [otherUser];
        if s != 0.0 {
          totalAbsSim := totalAbsSim + Abs(s);
          weightedSum := weightedSum + s * neighborRating;
        }
        ReplayNext(ratings, targetItem, targetUser, sim, order, before, Accumulators(totalAbsSim, weightedSum, consulted),
                   otherUser, s, neighborRating);
      } else {
        ReplayNext(ratings, targetItem, targetUser, sim, order, before, before, otherUser, 0.0, 0.0);
      }
      EnumeratesNext(order, done, otherUser);
      assert ratings.Keys - (done + {otherUser}) == remaining - {otherUser};
      remaining, done, order := remaining - {otherUser}, done + {otherUser}, Then(order, otherUser);
    }
    assert done == ratings.Keys;
    ReplaySums(ratings, targetItem, targetUser, sim, order, done);
    ReplayConsulted(ratings, targetItem, targetUser, sim, order, done);
    predicted := if totalAbsSim <= Threshold then 0.0 else weightedSum / totalAbsSim;
  }

  /** Appending a user not yet present keeps the users distinct. */
  lemma NoDuplicatesAppend(users: seq<string>, u: string)
    requires NoDuplicates(users) && u !in users
    ensures NoDuplicates(users + [u])
  {
  }

  /** order lists the users of done, each once. */
  ghost predicate Enumerates(order: Visits, done: set<string>) {
    match order
    case NoVisits => done == {}
    case Then(before, u) => u in done && Enumerates(before, done - {u})
  }

  lemma EnumeratesNext(order: Visits, done: set<string>, u: string)
    requires Enumerates(order, done) && u !in done
    ensures Enumerates(Then(order, u), done + {u})
  {
    assert done + {u} - {u} == done;
  }

  /**
    Visiting the users of done once each, in any order, accumulates the sums
    of their terms: the loop computes TotalAbsSim and WeightedSum whatever
    order the dictionary yields its users in.
  */
  lemma {:induction false} ReplaySums(ratings: RatingTable, targetItem: string, targetUser: string, sim: Similarity,
                                      order: Visits, done: set<string>)
    requires Enumerates(order, done)
    ensures Replay(ratings, targetItem, targetUser, sim, order).totalAbsSim == SumOver(done, AbsTerms(ratings, targetItem, targetUser, sim))
    ensures Replay(ratings, targetItem, targetUser, sim, order).weightedSum == SumOver(done, WeightTerms(ratings, targetItem, targetUser, sim))
  {
    match order
    case NoVisits =>
    case Then(before, u) =>
      ReplaySums(ratings, targetItem, targetUser, sim, before, done - {u});
      SumOverRemove(done, AbsTerms(ratings, targetItem, targetUser, sim), u);
      SumOverRemove(done, WeightTerms(ratings, targetItem, targetUser, sim), u);
  }

  /** Visiting the users of done once each consults exactly the neighbours among them, once each. */
  lemma {:induction false} ReplayConsulted(ratings: RatingTable, targetItem: string, targetUser: string, sim: Similarity,
                                           order: Visits, done: set<string>)
    requires Enumerates(order, done)
    ensures forall u :: u in Replay(ratings, targetItem, targetUser, sim, order).consulted <==>
                        u in done && targetUser in ratings && IsNeighbour(ratings, targetItem, targetUser, u)
    ensures NoDuplicates(Replay(ratings, targetItem, targetUser, sim, order).consulted)
  {
    match order
    case NoVisits =>
    case Then(before, u) =>
      ReplayConsulted(ratings, targetItem, targetUser, sim, before, done - {u});
      var acc := Replay(ratings, targetItem, targetUser, sim, before);
      if targetUser in ratings && IsNeighbour(ratings, targetItem, targetUser, u) {
        NoDuplicatesAppend(acc.consulted, u);
      }
  }

  /** The total absolute similarity is never negative at any point of the loop. */
  lemma {:induction false} ReplayTotalNonnegative(ratings: RatingTable, targetItem: string, targetUser: string, sim: Similarity,
                                                  order: Visits)
    ensures Replay(ratings, targetItem, targetUser, sim, order).totalAbsSim >= 0.0
  {
    match order
    case NoVisits =>
    case Then(before, u) =>
      ReplayTotalNonnegative(ratings, targetItem, targetUser, sim, before);
  }

  /** The total absolute similarity is never negative. */
  lemma TotalAbsSimNonnegative(ratings: RatingTable, targetItem: string, targetUser: string, sim: Similarity)
    ensures TotalAbsSim(ratings, targetItem, targetUser, sim) >= 0.0
  {
    SumOverNonnegative(ratings.Keys, AbsTerms(ratings, targetItem, targetUser, sim));
  }

  /** When no other user has rated the item there is no signal, and the prediction is 0. */
  lemma NoNeighboursPredictsZero(ratings: RatingTable, targetItem: string, targetUser: string, sim: Similarity)
    requires forall u :: !IsNeighbour(ratings, targetItem, targetUser, u)
    ensures Prediction(ratings, targetItem, targetUser, sim) == 0.0
  {
    SumOverZero(ratings.Keys, AbsTerms(ratings, targetItem, targetUser, sim));
  }

  /**
    A user other than the target who has not rated the item, or whose
    similarity to the target is 0, can be dropped from the table without
    changing the prediction.
  */
  lemma UninformativeUserIgnored(ratings: RatingTable, targetItem: string, targetUser: string, sim: Similarity, u: string)
    requires targetUser in ratings && u in ratings && u != targetUser
    requires targetItem !in ratings[u] || sim(ratings[targetUser], ratings[u]) == 0.0
    ensures Prediction(ratings - {u}, targetItem, targetUser, sim) == Prediction(ratings, targetItem, targetUser, sim)
  {
    var smaller := ratings - {u};
    assert smaller.Keys == ratings.Keys - {u};
    SumOverRemove(ratings.Keys, AbsTerms(ratings, targetItem, targetUser, sim), u);
    SumOverRemove(ratings.Keys, WeightTerms(ratings, targetItem, targetUser, sim), u);
    SumOverAgree(ratings.Keys - {u}, AbsTerms(smaller, targetItem, targetUser, sim), AbsTerms(ratings, targetItem, targetUser, sim));
    SumOverAgree(ratings.Keys - {u}, WeightTerms(smaller, targetItem, targetUser, sim), WeightTerms(ratings, targetItem, targetUser, sim));
    assert TotalAbsSim(smaller, targetItem, targetUser, sim) == TotalAbsSim(ratings, targetItem, targetUser, sim);
    assert WeightedSum(smaller, targetItem, targetUser, sim) == WeightedSum(ratings, targetItem, targetUser, sim);
  }

  /**
    With nonnegative similarities the prediction, when there is signal, is a
    weighted average: it lies between the least and the greatest rating the
    neighbours gave the item.
  */
  lemma PredictionWithinRatings(ratings: RatingTable, targetItem: string, targetUser: string, sim: Similarity,
                                lo: real, hi: real)
    requires targetUser in ratings
    requires forall u :: IsNeighbour(ratings, targetItem, targetUser, u) ==>
               sim(ratings[targetUser], ratings[u]) >= 0.0 && lo <= ratings[u][targetItem] <= hi
    requires TotalAbsSim(ratings, targetItem, targetUser, sim) > Threshold
    ensures lo <= Prediction(ratings, targetItem, targetUser, sim) <= hi
  {
    var absTerms, weightTerms := AbsTerms(ratings, targetItem, targetUser, sim), WeightTerms(ratings, targetItem, targetUser, sim);
    forall x | x in ratings.Keys
      ensures ScaledBetween(lo, hi, absTerms(x), weightTerms(x))
    {
      if IsNeighbour(ratings, targetItem, targetUser, x) {
        WeightBetween(sim(ratings[targetUser], ratings[x]), ratings[x][targetItem], lo, hi);
      }
    }
    SumOverBounds(ratings.Keys, weightTerms, absTerms, lo, hi);
    DivBounds(WeightedSum(ratings, targetItem, targetUser, sim), TotalAbsSim(ratings, targetItem, targetUser, sim), lo, hi);
  }

  lemma WeightBetween(s: real, r: real, lo: real, hi: real)
    requires s >= 0.0 && lo <= r <= hi
    ensures ScaledBetween(lo, hi, Abs(s), Weight(s, r))
  {
  }

  lemma DivBounds(w: real, t: real, lo: real, hi: real)
    requires t > 0.0 && ScaledBetween(lo, hi, t, w)
    ensures lo <= w / t <= hi
  {
    assert w / t * t == w;
  }

  /** Three users' ratings of four items. */
  function SampleRatings(): RatingTable {
    map["user1" := map["item1" := 5.0, "item2" := 3.0, "item3" := 4.0],
        "user2" := map["item1" := 4.0, "item2" := 2.0, "item3" := 5.0],
        "user3" := map["item1" := 3.0, "item2" := 4.0, "item4" := 3.0]]
  }

  /** A similarity strategy that scores every pair of users 0.8. */
  function ConstantSimilarity(a: UserRatings, b: UserRatings): real {
    0.8
  }

  /** On the sample, the users other than user1 who have rated item1 are user2 and user3. */
  lemma SampleNeighbours()
    ensures forall u :: IsNeighbour(SampleRatings(), "item1", "user1", u) <==> u == "user2" || u == "user3"
  {
    var ratings := SampleRatings();
    assert ratings.Keys == {"user1", "user2", "user3"};
    assert "item1" in ratings["user2"] && "item1" in ratings["user3"];
  }

  /** What each user of the sample adds to the two sums when user1's rating of item1 is predicted. */
  lemma SampleTerms()
    ensures AbsTerm(SampleRatings(), "item1", "user1", ConstantSimilarity, "user1") == 0.0
    ensures AbsTerm(SampleRatings(), "item1", "user1", ConstantSimilarity, "user2") == 0.8
    ensures AbsTerm(SampleRatings(), "item1", "user1", ConstantSimilarity, "user3") == 0.8
    ensures WeightTerm(SampleRatings(), "item1", "user1", ConstantSimilarity, "user1") == 0.0
    ensures WeightTerm(SampleRatings(), "item1", "user1", ConstantSimilarity, "user2") == 3.2
    ensures WeightTerm(SampleRatings(), "item1", "user1", ConstantSimilarity, "user3") == 2.4
  {
    var ratings := SampleRatings();
    assert "user2" != "user1" && "user3" != "user1";
    assert ratings["user2"]["item1"] == 4.0 && ratings["user3"]["item1"] == 3.0;
  }

  /**
    On the sample, with similarity 0.8 for every pair, user1's predicted
    rating of item1 is (0.8 * 4 + 0.8 * 3) / (0.8 + 0.8) = 3.5.
  */
  lemma SamplePrediction()
    ensures Prediction(SampleRatings(), "item1", "user1", ConstantSimilarity) == 3.5
  {
    var ratings := SampleRatings();
    var absTerms, weightTerms := AbsTerms(ratings, "item1", "user1", ConstantSimilarity),
                                 WeightTerms(ratings, "item1", "user1", ConstantSimilarity);
    var all := ratings.Keys;
    assert all == {"user1", "user2", "user3"};
    var rest := all - {"user1"};
    var last := rest - {"user2"};
    assert last == {"user3"} && last - {"user3"} == {};
    SumOverRemove(all, absTerms, "user1");
    SumOverRemove(rest, absTerms, "user2");
    SumOverRemove(last, absTerms, "user3");
    SumOverRemove(all, weightTerms, "user1");
    SumOverRemove(rest, weightTerms, "user2");
    SumOverRemove(last, weightTerms, "user3");
    SampleTerms();
    assert TotalAbsSim(ratings, "item1", "user1", ConstantSimilarity) == 1.6;
    assert WeightedSum(ratings, "item1", "user1", ConstantSimilarity) == 5.6;
  }

  /** On the sample nobody has rated "nonexistentItem", so the prediction is 0. */
  lemma SampleNonexistentItem(sim: Similarity)
    ensures Prediction(SampleRatings(), "nonexistentItem", "user1", sim) == 0.0
  {
    NoNeighboursPredictsZero(SampleRatings(), "nonexistentItem", "user1", sim);
  }

  /** PredictRating on the sample computes similarity exactly twice and predicts 3.5. */
  method SamplePredictRating() returns (predicted: real, ghost consulted: seq<string>)
    ensures predicted == 3.5
    ensures |consulted| == 2
  {
    predicted, consulted := PredictRating("item1", "user1", SampleRatings(), ConstantSimilarity);
    SamplePrediction();
    SampleNeighbours();
    assert (set u | u in consulted) == {"user2", "user3"};
    NoDuplicatesCount(consulted);
  }

  /** A sequence of distinct users is as long as the set of its users is large. */
  lemma {:induction false} NoDuplicatesCount(users: seq<string>)
    requires NoDuplicates(users)
    ensures |set u | u in users| == |users|
  {
    if users != [] {
      var n := |users| - 1;
      var prefix := users[..n];
      assert users == prefix + [users[n]];
      assert (set u | u in users) == (set u | u in prefix) + {users[n]};
      assert users[n] !in prefix;
      NoDuplicatesCount(prefix);
    }
  }
}
