/**
Voting power, vote tallies and quorums of the validators (consensus/pbft.go).
*/
module Quorum {
  import opened Common
  import opened Sums

  type Key = nat
  type Hash = nat

  /** A vote for nothing, and the mark of an undecided tally. */
  const ZERO: Hash := 0

  type Powers = map<Key, int>
  type Votes = map<Key, Hash>

  function PowerOf(powers: Powers, k: Key): int {
    if k in powers then powers[k] else 0
  }

  ghost predicate NonNegative(powers: Powers) {
    forall k <- powers :: powers[k] >= 0
  }

  /** More than two thirds of the total and no more than needed; division truncates towards zero. */
  function QuorumOf(total: int): (q: int)
    ensures 3 * q > 2 * total
    ensures total >= 0 ==> 3 * (q - 1) <= 2 * total
  {
    (if total >= 0 then total * 2 / 3 else -(-total * 2 / 3)) + 1
  }

  ghost function AllPower(powers: Powers): int {
    Sum(powers)
  }

  // --- the power of a group ---

  ghost function Column(powers: Powers, keys: set<Key>): map<Key, int> {
    map k <- keys :: PowerOf(powers, k)
  }

  ghost function GroupPower(powers: Powers, keys: set<Key>): int {
    Sum(Column(powers, keys))
  }

  lemma GroupAdd(powers: Powers, keys: set<Key>, k: Key)
    requires k !in keys
    ensures GroupPower(powers, keys + {k}) == GroupPower(powers, keys) + PowerOf(powers, k)
  {
    hide Sum;
    SumUpdate(Column(powers, keys), k, PowerOf(powers, k));
    assert Column(powers, keys + {k}) == Column(powers, keys)[k := PowerOf(powers, k)];
  }

  lemma GroupEmpty(powers: Powers)
    ensures GroupPower(powers, {}) == 0
  {
    assert Column(powers, {}) == map[];
  }

  lemma {:induction false} UnionAndOverlap(powers: Powers, a: set<Key>, b: set<Key>)
    ensures GroupPower(powers, a) + GroupPower(powers, b) == GroupPower(powers, a + b) + GroupPower(powers, a * b)
    decreases |b|
  {
    hide GroupPower, PowerOf;
    if k :| k in b {
      var c := b - {k};
      UnionAndOverlap(powers, a, c);
      assert b == c + {k};
      GroupAdd(powers, c, k);
      if k in a {
        assert a + b == a + c && a * b == (a * c) + {k};
        GroupAdd(powers, a * c, k);
      } else {
        assert a + b == (a + c) + {k} && a * b == a * c;
        GroupAdd(powers, a + c, k);
      }
    } else {
      GroupEmpty(powers);
      assert a + b == a && a * b == {} && b == {};
    }
  }

  /** No group has more power than all validators together; keys that are not validators have none. */
  lemma {:induction false} GroupWithin(powers: Powers, keys: set<Key>)
    requires NonNegative(powers)
    ensures 0 <= GroupPower(powers, keys) <= AllPower(powers)
    decreases |powers|
  {
    hide GroupPower, Column;
    if k :| k in powers {
      var rest := powers - {k};
      GroupWithin(rest, keys - {k});
      SumRemove(powers, k);
      Restricted(powers, rest, keys - {k});
      if k in keys {
        GroupAdd(powers, keys - {k}, k);
        assert keys - {k} + {k} == keys;
      } else {
        assert keys - {k} == keys;
      }
    } else {
      NoPower(powers, keys);
    }
  }

  lemma Restricted(powers: Powers, rest: Powers, keys: set<Key>)
    requires forall k <- keys :: PowerOf(powers, k) == PowerOf(rest, k)
    ensures GroupPower(powers, keys) == GroupPower(rest, keys)
  {
    assert Column(powers, keys) == Column(rest, keys);
  }

  lemma {:induction false} NoPower(powers: Powers, keys: set<Key>)
    requires |powers| == 0
    ensures GroupPower(powers, keys) == 0 == AllPower(powers)
    decreases |keys|
  {
    assert powers == map[];
    if k :| k in keys {
      NoPower(powers, keys - {k});
      GroupAdd(powers, keys - {k}, k);
      assert keys - {k} + {k} == keys;
    } else {
      assert Column(powers, keys) == map[];
    }
  }

  // --- quorums ---

  /** Any two groups that reach the quorum share more than a third of the total power. */
  lemma QuorumsOverlap(powers: Powers, total: int, a: set<Key>, b: set<Key>)
    requires NonNegative(powers)
    requires AllPower(powers) <= total
    requires GroupPower(powers, a) >= QuorumOf(total) && GroupPower(powers, b) >= QuorumOf(total)
    ensures 3 * GroupPower(powers, a * b) > total
  {
    UnionAndOverlap(powers, a, b);
    GroupWithin(powers, a + b);
  }

  /**
  Even if everyone agrees, the quorum is reached only while the counted total is below one and a half times
  the real power.
  */
  lemma ReachableExactly(powers: Powers, total: int)
    requires NonNegative(powers) && total >= 0
    ensures (exists keys: set<Key> :: GroupPower(powers, keys) >= QuorumOf(total)) <==> 3 * AllPower(powers) > 2 * total
  {
    if 3 * AllPower(powers) > 2 * total {
      assert Column(powers, powers.Keys) == powers;
      assert GroupPower(powers, powers.Keys) >= QuorumOf(total);
    }
    forall keys: set<Key> ensures GroupPower(powers, keys) <= AllPower(powers) {
      GroupWithin(powers, keys);
    }
  }

  /** Power counted twice puts the quorum out of reach exactly when it is at least half the real power. */
  lemma ReachableBesideReplaced(powers: Powers, replaced: nat)
    requires NonNegative(powers)
    ensures (exists keys: set<Key> :: GroupPower(powers, keys) >= QuorumOf(AllPower(powers) + replaced)) <==>
      AllPower(powers) > 2 * replaced
  {
    PowerNonNegative(powers);
    ReachableExactly(powers, AllPower(powers) + replaced);
  }

  function VotersFor(votes: Votes, h: Hash): set<Key> {
    set k <- votes | votes[k] == h
  }

  ghost function PowerFor(powers: Powers, votes: Votes, h: Hash): int {
    GroupPower(powers, VotersFor(votes, h))
  }

  /** In one set of votes at most one hash reaches the quorum. */
  lemma OneWinner(powers: Powers, total: int, votes: Votes, g: Hash, h: Hash)
    requires NonNegative(powers)
    requires AllPower(powers) <= total
    requires PowerFor(powers, votes, g) >= QuorumOf(total) && PowerFor(powers, votes, h) >= QuorumOf(total)
    ensures g == h
  {
    if g != h {
      assert VotersFor(votes, g) * VotersFor(votes, h) == {};
      GroupEmpty(powers);
      GroupWithin(powers, {});
      QuorumsOverlap(powers, total, VotersFor(votes, g), VotersFor(votes, h));
    }
  }

  ghost predicate Reached(powers: Powers, total: int, votes: Votes, h: Hash) {
    PowerFor(powers, votes, h) >= QuorumOf(total)
  }

  ghost predicate SomeReached(powers: Powers, total: int, votes: Votes) {
    exists h :: Reached(powers, total, votes, h)
  }

  // --- tallying ---

  /** What has been counted of the votes of `done`, hash by hash. */
  ghost predicate Counted(powers: Powers, votes: Votes, done: set<Key>, counts: map<Hash, int>) {
    && (forall h :: (if h in counts then counts[h] else 0) == GroupPower(powers, VotersFor(votes, h) * done))
  }

  lemma CountOne(powers: Powers, votes: Votes, done: set<Key>, counts: map<Hash, int>, k: Key)
    requires Counted(powers, votes, done, counts) && k in votes && k !in done
    ensures var h := votes[k];
      Counted(powers, votes, done + {k}, counts[h := (if h in counts then counts[h] else 0) + PowerOf(powers, k)])
  {
    hide GroupPower;
    var h := votes[k];
    var counts1 := counts[h := (if h in counts then counts[h] else 0) + PowerOf(powers, k)];
    forall g
      ensures (if g in counts1 then counts1[g] else 0) == GroupPower(powers, VotersFor(votes, g) * (done + {k}))
    {
      if g == h {
        assert VotersFor(votes, g) * (done + {k}) == VotersFor(votes, g) * done + {k};
        GroupAdd(powers, VotersFor(votes, g) * done, k);
      } else {
        assert VotersFor(votes, g) * (done + {k}) == VotersFor(votes, g) * done;
      }
    }
  }

  lemma CountNone(powers: Powers, votes: Votes)
    ensures Counted(powers, votes, {}, map[])
  {
    forall h ensures GroupPower(powers, VotersFor(votes, h) * {}) == 0 {
      assert VotersFor(votes, h) * {} == {};
      GroupEmpty(powers);
    }
  }

  /** Counting more votes never lowers a tally. */
  lemma CountGrows(powers: Powers, votes: Votes, done: set<Key>, h: Hash)
    requires NonNegative(powers)
    ensures GroupPower(powers, VotersFor(votes, h) * done) <= PowerFor(powers, votes, h)
  {
    hide GroupPower;
    var all := VotersFor(votes, h);
    UnionAndOverlap(powers, all * done, all - done);
    assert all * done + (all - done) == all && (all * done) * (all - done) == {};
    GroupWithin(powers, all - done);
    GroupEmpty(powers);
  }

  lemma OnlyOneReached(powers: Powers, total: int, votes: Votes, h: Hash)
    requires NonNegative(powers)
    requires AllPower(powers) <= total && Reached(powers, total, votes, h)
    ensures forall g :: Reached(powers, total, votes, g) ==> g == h
  {
    forall g | Reached(powers, total, votes, g) ensures g == h {
      OneWinner(powers, total, votes, g, h);
    }
  }

  lemma ReachedIfCounted(powers: Powers, total: int, votes: Votes, done: set<Key>, counts: map<Hash, int>)
    requires NonNegative(powers)
    requires Counted(powers, votes, done, counts)
    ensures forall h :: h in counts && counts[h] >= QuorumOf(total) ==> Reached(powers, total, votes, h)
  {
    hide GroupPower;
    forall h | h in counts && counts[h] >= QuorumOf(total) ensures Reached(powers, total, votes, h) {
      CountGrows(powers, votes, done, h);
    }
  }

  lemma AllCounted(powers: Powers, votes: Votes, counts: map<Hash, int>)
    requires Counted(powers, votes, votes.Keys, counts)
    ensures forall h :: (if h in counts then counts[h] else 0) == PowerFor(powers, votes, h)
  {
    forall h ensures (if h in counts then counts[h] else 0) == PowerFor(powers, votes, h) {
      assert VotersFor(votes, h) * votes.Keys == VotersFor(votes, h);
    }
  }

  function Add(counts: map<Hash, int>, h: Hash, power: int): (r: map<Hash, int>)
    ensures h in r
  {
    counts[h := (if h in counts then counts[h] else 0) + power]
  }

  /** Counting so far has found the winner if one of the tallies reached the quorum. */
  ghost predicate Tallied(powers: Powers, total: int, votes: Votes, done: set<Key>, counts: map<Hash, int>,
                          winner: Hash) {
    && Counted(powers, votes, done, counts)
    && (winner != ZERO ==> Reached(powers, total, votes, winner))
    && forall h :: h != ZERO && h in counts && counts[h] >= QuorumOf(total) ==> winner == h
  }

  lemma TallyStart(powers: Powers, total: int, votes: Votes)
    ensures Tallied(powers, total, votes, {}, map[], ZERO)
  {
    CountNone(powers, votes);
  }

  lemma NoticeStart(powers: Powers, total: int, votes: Votes)
    requires NonNegative(powers) && AllPower(powers) <= total
    ensures Noticed(powers, total, votes, {}, map[], 0)
  {
    GroupWithin(powers, {});
    CountNone(powers, votes);
  }

  lemma TallyOne(powers: Powers, total: int, votes: Votes, done: set<Key>, counts: map<Hash, int>, winner: Hash, k: Key)
    requires NonNegative(powers)
    requires AllPower(powers) <= total && Tallied(powers, total, votes, done, counts, winner)
    requires k in votes && k !in done
    ensures var counts1 := Add(counts, votes[k], PowerOf(powers, k));
      var winner1 := if counts1[votes[k]] >= QuorumOf(total) then votes[k] else winner;
      Tallied(powers, total, votes, done + {k}, counts1, winner1)
  {
    hide Reached, Counted, AllPower, PowerOf;
    var h := votes[k];
    var counts1 := Add(counts, h, PowerOf(powers, k));
    CountOne(powers, votes, done, counts, k);
    ReachedIfCounted(powers, total, votes, done + {k}, counts1);
    if counts1[h] >= QuorumOf(total) {
      OnlyOneReached(powers, total, votes, h);
    }
  }

  lemma TallyDone(powers: Powers, total: int, votes: Votes, counts: map<Hash, int>, winner: Hash)
    requires total >= 0 && Tallied(powers, total, votes, votes.Keys, counts, winner)
    ensures winner != ZERO ==> Reached(powers, total, votes, winner)
    ensures forall h :: h != ZERO && Reached(powers, total, votes, h) ==> winner == h
  {
    hide Counted;
    AllCounted(powers, votes, counts);
  }

  /** The last tally seen at the quorum, if any, is one that reached it. */
  ghost predicate Noticed(powers: Powers, total: int, votes: Votes, done: set<Key>, counts: map<Hash, int>, yes: int) {
    && Counted(powers, votes, done, counts)
    && (yes >= QuorumOf(total) ==> SomeReached(powers, total, votes))
    && forall h :: h in counts && counts[h] >= QuorumOf(total) ==> yes >= QuorumOf(total)
  }

  lemma NoticeOne(powers: Powers, total: int, votes: Votes, done: set<Key>, counts: map<Hash, int>, yes: int, k: Key)
    requires NonNegative(powers)
    requires Noticed(powers, total, votes, done, counts, yes) && k in votes && k !in done
    ensures var counts1 := Add(counts, votes[k], PowerOf(powers, k));
      var tally := counts1[votes[k]];
      Noticed(powers, total, votes, done + {k}, counts1, if tally >= QuorumOf(total) then tally else yes)
  {
    hide Reached, Counted, PowerOf;
    CountOne(powers, votes, done, counts, k);
    ReachedIfCounted(powers, total, votes, done + {k}, Add(counts, votes[k], PowerOf(powers, k)));
  }

  lemma NoticeDone(powers: Powers, total: int, votes: Votes, counts: map<Hash, int>, yes: int)
    requires total >= 0 && Noticed(powers, total, votes, votes.Keys, counts, yes)
    ensures yes >= QuorumOf(total) <==> SomeReached(powers, total, votes)
  {
    hide Counted;
    AllCounted(powers, votes, counts);
    forall h | Reached(powers, total, votes, h) ensures yes >= QuorumOf(total) {
      assert h in counts;
    }
  }

  lemma PowerNonNegative(powers: Powers)
    requires NonNegative(powers)
    ensures AllPower(powers) >= 0
  {
    SumNonNegative(powers);
  }

  lemma SumOfThree(a: int, b: int, c: int)
    ensures AllPower(map[1 := a, 2 := b, 3 := c]) == a + b + c
  {
    hide Sum;
    var none: Powers := map[];
    SumUpdate(none, 1, a);
    SumUpdate(none[1 := a], 2, b);
    SumUpdate(none[1 := a][2 := b], 3, c);
    assert map[1 := a, 2 := b, 3 := c] == none[1 := a][2 := b][3 := c];
    SumEmpty(none);
  }

  lemma SumEmpty(none: Powers)
    requires |none| == 0
    ensures Sum(none) == 0
  {
  }

  ghost predicate AtMostOneReached(powers: Powers, votes: Votes) {
    forall g, h :: Reached(powers, AllPower(powers), votes, g) && Reached(powers, AllPower(powers), votes, h) ==> g == h
  }

  ghost predicate AtLeast(powers: Powers, bound: int) {
    forall k <- powers :: powers[k] >= bound
  }

  /** With power below zero two hashes can reach the quorum at once. */
  lemma TwoWinners(bound: int) returns (powers: Powers, votes: Votes)
    requires bound < 0
    ensures AtLeast(powers, bound) && AllPower(powers) == -bound
    ensures Reached(powers, -bound, votes, 7) && Reached(powers, -bound, votes, 8)
  {
    hide GroupPower, AllPower;
    powers, votes := map[1 := -bound, 2 := -bound, 3 := bound], map[1 := 7, 2 := 8];
    SumOfThree(-bound, -bound, bound);
    assert VotersFor(votes, 7) == {} + {1} && VotersFor(votes, 8) == {} + {2};
    GroupEmpty(powers);
    GroupAdd(powers, {}, 1);
    GroupAdd(powers, {}, 2);
  }

  /** A lower bound on the validators' power makes the winner unique exactly if it is not negative. */
  lemma UniqueWinnerExactly(bound: int)
    ensures (forall powers, votes :: AtLeast(powers, bound) ==> AtMostOneReached(powers, votes)) <==> bound >= 0
  {
    if bound >= 0 {
      forall powers, votes | AtLeast(powers, bound) ensures AtMostOneReached(powers, votes) {
        forall h | Reached(powers, AllPower(powers), votes, h)
          ensures forall g :: Reached(powers, AllPower(powers), votes, g) ==> g == h
        {
          OnlyOneReached(powers, AllPower(powers), votes, h);
        }
      }
    } else {
      var powers, votes := TwoWinners(bound);
      assert !AtMostOneReached(powers, votes);
    }
  }

  /** A tally that reached the quorum reached it for the current proposal exactly if it did for no other hash. */
  lemma ForProposalExactly(powers: Powers, total: int, votes: Votes, proposal: Hash)
    requires NonNegative(powers) && AllPower(powers) <= total && SomeReached(powers, total, votes)
    ensures Reached(powers, total, votes, proposal) <==>
      forall h :: h != proposal ==> !Reached(powers, total, votes, h)
  {
    if Reached(powers, total, votes, proposal) {
      OnlyOneReached(powers, total, votes, proposal);
    }
  }

  /** Proposal 8 is committed on precommits that are all for 7. */
  method CommitsAnother() returns (committed: Option<Hash>, ghost powers: Powers, ghost votes: Votes)
    ensures committed == Some(8) && powers == map[1 := 1] && votes == map[1 := 7]
    ensures Reached(powers, 1, votes, 7) && !Reached(powers, 1, votes, 8)
  {
    hide GroupPower, AllPower, SomeReached;
    var s := new ValidatorSet();
    s.AddValidator(1, 1);
    powers, votes := map[1 := 1], map[1 := 7];
    assert s.validators == powers && s.totalPower == 1;
    assert VotersFor(votes, 7) == {} + {1} && VotersFor(votes, 8) == {};
    GroupEmpty(powers);
    GroupAdd(powers, {}, 1);
    var advanced;
    advanced, committed := s.TryCommit(map[1 := 7], Some(8));
    assert SomeReached(powers, 1, votes) by { SomeIsReached(powers, 1, votes, 7); }
  }

  lemma SomeIsReached(powers: Powers, total: int, votes: Votes, h: Hash)
    requires Reached(powers, total, votes, h)
    ensures SomeReached(powers, total, votes)
  {
  }

  /** One validator added twice: its own vote no longer makes the quorum, nor does any group. */
  method AddedTwice() returns (s: ValidatorSet)
    ensures fresh(s) && s.Sound() && s.validators == map[1 := 1] && s.totalPower == 2
    ensures forall keys: set<Key> :: GroupPower(s.validators, keys) < QuorumOf(s.totalPower)
  {
    hide GroupPower, Sum;
    s := new ValidatorSet();
    s.AddValidator(1, 1);
    s.AddValidator(1, 1);
    ReachableBesideReplaced(s.validators, 1);
  }

  class ValidatorSet {
    var validators: Powers
    var totalPower: int
    /** Power still counted for validators that were added again. */
    ghost var replaced: int

    ghost predicate Valid()
      reads this
    {
      totalPower == AllPower(validators) + replaced
    }

    /** Nobody was ever given negative power, so that the counted total covers the real power. */
    ghost predicate Sound()
      reads this
    {
      Valid() && NonNegative(validators) && replaced >= 0
    }

    constructor ()
      ensures Sound() && validators == map[] && totalPower == replaced == 0
    {
      validators, totalPower, replaced := map[], 0, 0;
    }

    /** Adding a known key again counts its power a second time. */
    method AddValidator(k: Key, power: int)
      requires Valid()
      modifies this
      ensures Valid() && validators == old(validators)[k := power]
      ensures totalPower == old(totalPower) + power
      ensures replaced == old(replaced) + PowerOf(old(validators), k)
      ensures old(Sound()) && power >= 0 ==> Sound() && AllPower(validators) <= totalPower
    {
      SumUpdate(validators, k, power);
      replaced := replaced + PowerOf(validators, k);
      validators := validators[k := power];
      totalPower := totalPower + power;
    }

    method RemoveValidator(k: Key)
      requires Valid()
      modifies this
      ensures Valid() && validators == old(validators) - {k} && replaced == old(replaced)
      ensures totalPower == old(totalPower) - PowerOf(old(validators), k)
      ensures old(Sound()) ==> Sound() && AllPower(validators) <= totalPower
    {
      if k in validators {
        SumRemove(validators, k);
        totalPower := totalPower - validators[k];
        validators := validators - {k};
      }
      assert k !in old(validators) ==> old(validators) - {k} == old(validators);
    }

    /** The least power that exceeds two thirds of the counted total. */
    method Quorum() returns (q: int)
      ensures q == QuorumOf(totalPower)
      ensures 3 * q > 2 * totalPower && (totalPower >= 0 ==> 3 * (q - 1) <= 2 * totalPower)
    {
      var doubled := totalPower * 2;
      return (if doubled >= 0 then doubled / 3 else -(-doubled / 3)) + 1;
    }

    method ValidatorPower(k: Key) returns (p: int)
      ensures p == PowerOf(validators, k)
    {
      return if k in validators then validators[k] else 0;
    }

    /** Whatever the order of counting, the winner is the hash that reaches the quorum; ZERO if none other does. */
    method TallyPrevotes(prevotes: Votes) returns (winner: Hash)
      requires Valid()
      ensures Sound() && winner != ZERO ==> Reached(validators, totalPower, prevotes, winner)
      ensures Sound() ==> forall h :: h != ZERO && Reached(validators, totalPower, prevotes, h) ==> winner == h
    {
      hide Tallied, Reached, AllPower, QuorumOf, PowerOf, Add, NonNegative;
      var quorum := Quorum();
      winner := ZERO;
      var counts: map<Hash, int> := map[];
      var todo := prevotes.Keys;
      ghost var done: set<Key> := {};
      TallyStart(validators, totalPower, prevotes);
      while todo != {}
        invariant todo !! done && done + todo == prevotes.Keys
        invariant Sound() ==> Tallied(validators, totalPower, prevotes, done, counts, winner)
        decreases |todo|
      {
        var k :| k in todo;
        var h := prevotes[k];
        if Sound() {
          TallyOne(validators, totalPower, prevotes, done, counts, winner, k);
        }
        todo, done := todo - {k}, done + {k};
        var power := ValidatorPower(k);
        counts := Add(counts, h, power);
        if counts[h] >= quorum {
          winner := h;
        }
      }
      assert done == prevotes.Keys;
      if Sound() {
        PowerNonNegative(validators);
        TallyDone(validators, totalPower, prevotes, counts, winner);
      }
    }

    /** Reports whether some hash, whichever it is, reaches the quorum. */
    method TallyPrecommits(precommits: Votes) returns (reached: bool)
      requires Valid()
      ensures Sound() ==> (reached <==> SomeReached(validators, totalPower, precommits))
    {
      hide Noticed, SomeReached, AllPower, QuorumOf, PowerOf, Add, NonNegative;
      var quorum := Quorum();
      var yes := 0;
      var counts: map<Hash, int> := map[];
      var todo := precommits.Keys;
      ghost var done: set<Key> := {};
      if Sound() {
        NoticeStart(validators, totalPower, precommits);
      }
      while todo != {}
        invariant todo !! done && done + todo == precommits.Keys
        invariant Sound() ==> Noticed(validators, totalPower, precommits, done, counts, yes)
        decreases |todo|
      {
        var k :| k in todo;
        var h := precommits[k];
        if Sound() {
          NoticeOne(validators, totalPower, precommits, done, counts, yes, k);
        }
        todo, done := todo - {k}, done + {k};
        var power := ValidatorPower(k);
        counts := Add(counts, h, power);
        if counts[h] >= quorum {
          yes := counts[h];
        }
      }
      assert done == precommits.Keys;
      if Sound() {
        PowerNonNegative(validators);
        NoticeDone(validators, totalPower, precommits, counts, yes);
      }
      return yes >= quorum;
    }

    /** Whatever hash the precommits are for, it is the current proposal that is committed. */
    method TryCommit(precommits: Votes, proposal: Option<Hash>) returns (advanced: bool, committed: Option<Hash>)
      requires Valid()
      ensures Sound() ==> (advanced <==> SomeReached(validators, totalPower, precommits))
      ensures committed == if advanced then proposal else None
    {
      advanced := TallyPrecommits(precommits);
      committed := if advanced then proposal else None;
    }
  }
}
