/**
Spending credit notes (x/darkchain/keeper/credit_utxo.go and keeper.go): the credit
tree, its persisted copy keyed by 16-byte prefixes, and the nullifier set.

The commitment hash is an arbitrary function from note contents to 32 bytes; a
nullifier is the pair of secret and serial it is derived from. The random serial of a
new note is a parameter.
*/
module CreditNotes {
  import opened ByteOrder
  import opened Common
  import opened Merkle
  import opened Sums

  type Uint64 = n: nat | n < UINT64_RANGE
  type Commitment = c: Bytes | |c| == 32 witness seq(32, i => 0)

  datatype Contents = Contents(value: Uint64, owner: Bytes, serial: Bytes)

  datatype Note = Note(contents: Contents, commitment: Commitment, blockCreated: int)

  datatype Nullifier = Nullifier(secret: Bytes, serial: Bytes)

  datatype SpendError = NoNotes | ZeroRequired | BadCommitment | Insufficient | NotInTree | DoubleSpend

  datatype SpendResult = SpendResult(
    spent: seq<Note>,
    nullifiers: seq<Nullifier>,
    changeNotes: seq<Note>,
    totalSpent: Uint64,
    changeAmount: Uint64)

  /** The storage key of a commitment. */
  function Prefix(commitment: Bytes): Bytes {
    if |commitment| < 16 then commitment else commitment[..16]
  }

  /** Two commitments of at least 16 bytes share a storage key exactly if their first 16 bytes agree. */
  lemma PrefixShared(a: Commitment, b: Commitment)
    requires |a| >= 16 && |b| >= 16
    ensures Prefix(a) == Prefix(b) <==> forall i :: 0 <= i < 16 ==> a[i] == b[i]
  {
    assert |Prefix(a)| == |Prefix(b)| == 16;
    if forall i :: 0 <= i < 16 ==> a[i] == b[i] {
      assert Prefix(a) == Prefix(b);
    }
    if Prefix(a) == Prefix(b) {
      assert forall i :: 0 <= i < 16 ==> a[i] == Prefix(a)[i] && b[i] == Prefix(b)[i];
    }
  }

  // --- the persisted copy of the tree ---

  /** The store holds exactly the commitments of the tree, each under its own prefix. */
  ghost predicate Mirrors(unspent: set<Bytes>, persisted: map<Bytes, Bytes>) {
    && (forall c <- unspent :: Prefix(c) in persisted && persisted[Prefix(c)] == c)
    && (forall k <- persisted :: persisted[k] in unspent && k == Prefix(persisted[k]))
  }

  /** No other commitment in the tree has the prefix of c. */
  ghost predicate PrefixFree(unspent: set<Bytes>, c: Bytes) {
    forall d <- unspent :: Prefix(d) == Prefix(c) ==> d == c
  }

  /** Adding a commitment keeps store and tree the same set exactly when its prefix is not taken. */
  lemma AddMirrorsExactly(unspent: set<Bytes>, persisted: map<Bytes, Bytes>, c: Bytes)
    requires Mirrors(unspent, persisted)
    ensures Mirrors(unspent + {c}, persisted[Prefix(c) := c]) <==> PrefixFree(unspent, c)
  {
    var after := persisted[Prefix(c) := c];
    if !PrefixFree(unspent, c) {
      var d :| d in unspent && Prefix(d) == Prefix(c) && d != c;
      assert d in unspent + {c} && after[Prefix(d)] != d;
    }
  }

  ghost predicate AllPrefixFree(unspent: set<Bytes>, cs: set<Bytes>) {
    forall c <- cs :: PrefixFree(unspent, c)
  }

  lemma RemoveMirrors(unspent: set<Bytes>, persisted: map<Bytes, Bytes>, c: Bytes)
    requires Mirrors(unspent, persisted) && PrefixFree(unspent, c)
    ensures Mirrors(unspent - {c}, persisted - {Prefix(c)})
  {
  }

  /** What is in both tree and store shares its prefix with nothing else there. */
  lemma MirrorsPrefixFree(unspent: set<Bytes>, persisted: map<Bytes, Bytes>, c: Bytes)
    requires Mirrors(unspent, persisted) && c in unspent
    ensures PrefixFree(unspent, c)
  {
  }

  /** Reloading the persisted commitments, in whatever order the store lists them, rebuilds the tree and its root. */
  lemma RestoreRebuilds(commitments: seq<Bytes>, persisted: map<Bytes, Bytes>, loaded: seq<Bytes>, restored: seq<Bytes>)
    requires Sorted(commitments) && Distinct(commitments) && Mirrors((set c <- commitments), persisted)
    requires Distinct(loaded) && forall c :: c in loaded <==> c in persisted.Values
    requires Sorted(restored) && multiset(restored) == multiset(loaded)
    ensures restored == commitments && MerkleRoot(restored) == MerkleRoot(commitments)
  {
    forall c ensures c in commitments <==> c in loaded {
      if c in commitments {
        assert persisted[Prefix(c)] == c;
      }
    }
    forall c ensures multiset(commitments)[c] == multiset(loaded)[c] {
      DistinctCount(commitments, c);
      DistinctCount(loaded, c);
    }
    SameContentsSameRoot(restored, commitments);
  }

  lemma {:induction false} DistinctCount<T>(s: seq<T>, x: T)
    requires Distinct(s)
    ensures multiset(s)[x] == if x in s then 1 else 0
  {
    if |s| > 0 {
      TailMultiset(s);
      DistinctCount(s[1..], x);
      assert s == [s[0]] + s[1..];
    }
  }

  // --- what a list of notes does to the tree and the nullifiers ---

  function TotalValue(notes: seq<Note>): nat {
    if |notes| == 0 then 0 else TotalValue(notes[..|notes| - 1]) + notes[|notes| - 1].contents.value
  }

  function CommitmentSet(notes: seq<Note>): set<Bytes> {
    set i | 0 <= i < |notes| :: notes[i].commitment
  }

  function NullifierOf(note: Note, secret: Bytes): Nullifier {
    Nullifier(secret, note.contents.serial)
  }

  /** Two spends share a nullifier exactly if they are of one serial number by one secret. */
  lemma NullifiersShared(a: Note, secret: Bytes, b: Note, secret1: Bytes)
    ensures NullifierOf(a, secret) == NullifierOf(b, secret1) <==>
      a.contents.serial == b.contents.serial && secret == secret1
  {
  }

  function NullifierSet(notes: seq<Note>, secret: Bytes): set<Nullifier> {
    set i | 0 <= i < |notes| :: NullifierOf(notes[i], secret)
  }

  /** How many notes from the front can be spent one after another. */
  function SpendablePrefix(unspent: set<Bytes>, nullifiers: set<Nullifier>, notes: seq<Note>, secret: Bytes): (n: nat)
    ensures n <= |notes|
    decreases |notes|
  {
    if |notes| == 0 then 0
    else
      var c, u := notes[0].commitment, NullifierOf(notes[0], secret);
      if c in unspent && u !in nullifiers then
        1 + SpendablePrefix(unspent - {c}, nullifiers + {u}, notes[1..], secret)
      else 0
  }

  ghost predicate AllSpendable(unspent: set<Bytes>, nullifiers: set<Nullifier>, notes: seq<Note>, secret: Bytes) {
    && (forall i :: 0 <= i < |notes| ==> notes[i].commitment in unspent && NullifierOf(notes[i], secret) !in nullifiers)
    && (forall i, j :: 0 <= i < j < |notes| ==>
          notes[i].commitment != notes[j].commitment && notes[i].contents.serial != notes[j].contents.serial)
  }

  /** All notes can be spent exactly when they are in the tree, unspent, and differ in commitment and serial. */
  lemma {:induction false} SpendableExactly(unspent: set<Bytes>, nullifiers: set<Nullifier>, notes: seq<Note>,
                                            secret: Bytes)
    ensures SpendablePrefix(unspent, nullifiers, notes, secret) == |notes|
       <==> AllSpendable(unspent, nullifiers, notes, secret)
    decreases |notes|
  {
    if |notes| > 0 {
      var c, u := notes[0].commitment, NullifierOf(notes[0], secret);
      var rest := notes[1..];
      SpendableExactly(unspent - {c}, nullifiers + {u}, rest, secret);
      assert forall i :: 0 <= i < |rest| ==> rest[i] == notes[i + 1];
      if AllSpendable(unspent, nullifiers, notes, secret) {
        assert AllSpendable(unspent - {c}, nullifiers + {u}, rest, secret);
      }
      if c in unspent && u !in nullifiers && AllSpendable(unspent - {c}, nullifiers + {u}, rest, secret) {
        forall i | 0 < i < |notes|
          ensures notes[i].commitment != c && notes[i].contents.serial != notes[0].contents.serial
        {
          assert rest[i - 1].commitment in unspent - {c} && NullifierOf(rest[i - 1], secret) !in nullifiers + {u};
        }
        forall i, j | 0 <= i < j < |notes|
          ensures notes[i].commitment != notes[j].commitment && notes[i].contents.serial != notes[j].contents.serial
        {
          if i > 0 {
            assert rest[i - 1].commitment != rest[j - 1].commitment;
          }
        }
      }
    }
  }

  /** A note that is not on the list does not change how many of the listed ones can be spent. */
  lemma {:induction false} SpendableIgnoresOther(
    unspent: set<Bytes>, nullifiers: set<Nullifier>, notes: seq<Note>, secret: Bytes, other: Bytes)
    requires forall i :: 0 <= i < |notes| ==> notes[i].commitment != other
    ensures SpendablePrefix(unspent + {other}, nullifiers, notes, secret)
         == SpendablePrefix(unspent, nullifiers, notes, secret)
    decreases |notes|
  {
    if |notes| > 0 {
      var c, u := notes[0].commitment, NullifierOf(notes[0], secret);
      SpendableIgnoresOther(unspent - {c}, nullifiers + {u}, notes[1..], secret, other);
      assert unspent + {other} - {c} == unspent - {c} + {other};
    }
  }

  // --- conservation of value ---

  /** The value of the unspent commitments, when valueOf opens a commitment to its value. */
  ghost function UnspentValue(unspent: set<Bytes>, valueOf: Bytes -> int): int {
    BagSum(multiset(unspent), valueOf)
  }

  lemma ValueWithout(unspent: set<Bytes>, c: Bytes, valueOf: Bytes -> int)
    requires c in unspent
    ensures UnspentValue(unspent - {c}, valueOf) == UnspentValue(unspent, valueOf) - valueOf(c)
  {
    BagRemove(multiset(unspent), valueOf, c);
    assert multiset(unspent - {c}) == multiset(unspent) - multiset{c};
  }

  lemma CommitmentSetSplit(notes: seq<Note>)
    requires |notes| > 0
    ensures CommitmentSet(notes) == CommitmentSet(notes[..|notes| - 1]) + {notes[|notes| - 1].commitment}
  {
    var front := notes[..|notes| - 1];
    forall c ensures c in CommitmentSet(notes) <==> c in CommitmentSet(front) || c == notes[|notes| - 1].commitment {
      if c in CommitmentSet(notes) {
        var i :| 0 <= i < |notes| && notes[i].commitment == c;
        assert i < |front| ==> front[i].commitment == c;
      }
      if c in CommitmentSet(front) {
        var i :| 0 <= i < |front| && front[i].commitment == c;
        assert notes[i].commitment == c;
      }
    }
  }

  lemma NoCommitments(notes: seq<Note>)
    ensures CommitmentSet(notes[..0]) == {}
  {
  }

  lemma NextCommitment(notes: seq<Note>, i: nat)
    requires i < |notes|
    ensures CommitmentSet(notes[..i + 1]) == CommitmentSet(notes[..i]) + {notes[i].commitment}
  {
    hide CommitmentSet;
    assert notes[..i + 1][..i] == notes[..i];
    CommitmentSetSplit(notes[..i + 1]);
  }

  /** A prefix free among the commitments before is free among fewer. */
  lemma FreeAt(before: set<Bytes>, unspent: set<Bytes>, notes: seq<Note>, i: nat)
    requires i < |notes| && unspent <= before
    ensures AllPrefixFree(before, CommitmentSet(notes)) ==> PrefixFree(unspent, notes[i].commitment)
  {
    assert notes[i].commitment in CommitmentSet(notes);
  }

  lemma CommitmentSetOne(notes: seq<Note>)
    requires |notes| <= 1
    ensures CommitmentSet(notes) == if |notes| == 0 then {} else {notes[0].commitment}
  {
    if |notes| == 1 {
      CommitmentSetSplit(notes);
    }
  }

  ghost predicate DistinctNotes(unspent: set<Bytes>, notes: seq<Note>, valueOf: Bytes -> int) {
    && (forall i :: 0 <= i < |notes| ==>
          notes[i].commitment in unspent && valueOf(notes[i].commitment) == notes[i].contents.value)
    && (forall i, j :: 0 <= i < j < |notes| ==> notes[i].commitment != notes[j].commitment)
  }

  lemma {:induction false} SpendingTakesTotal(unspent: set<Bytes>, notes: seq<Note>, valueOf: Bytes -> int)
    requires DistinctNotes(unspent, notes, valueOf)
    ensures UnspentValue(unspent - CommitmentSet(notes), valueOf) == UnspentValue(unspent, valueOf) - TotalValue(notes)
    decreases |notes|
  {
    hide UnspentValue;
    if |notes| == 0 {
      assert unspent - CommitmentSet(notes) == unspent;
    } else {
      var front, last := notes[..|notes| - 1], notes[|notes| - 1].commitment;
      SpendingTakesTotal(unspent, front, valueOf);
      var left := unspent - CommitmentSet(front);
      assert last !in CommitmentSet(front);
      ValueWithout(left, last, valueOf);
      CommitmentSetSplit(notes);
      assert unspent - CommitmentSet(notes) == left - {last};
    }
  }

  lemma SpendableNone(unspent: set<Bytes>, nullifiers: set<Nullifier>, secret: Bytes)
    ensures SpendablePrefix(unspent, nullifiers, [], secret) == 0
  {
  }

  lemma SpendableNext(unspent: set<Bytes>, nullifiers: set<Nullifier>, notes: seq<Note>, i: nat, secret: Bytes)
    requires i < |notes|
    ensures var c, u := notes[i].commitment, NullifierOf(notes[i], secret);
      SpendablePrefix(unspent, nullifiers, notes[i..], secret) ==
        if c in unspent && u !in nullifiers then
          1 + SpendablePrefix(unspent - {c}, nullifiers + {u}, notes[i + 1..], secret)
        else 0
  {
    assert notes[i..][1..] == notes[i + 1..];
  }

  lemma SpentSoFarStart(notes: seq<Note>, secret: Bytes)
    ensures CommitmentSet(notes[..0]) == {} && NullifierSet(notes[..0], secret) == {}
  {
  }

  lemma SpentSoFarNext(notes: seq<Note>, i: nat, secret: Bytes)
    requires i < |notes|
    ensures CommitmentSet(notes[..i + 1]) == CommitmentSet(notes[..i]) + {notes[i].commitment}
    ensures NullifierSet(notes[..i + 1], secret) == NullifierSet(notes[..i], secret) + {NullifierOf(notes[i], secret)}
  {
    hide CommitmentSet, NullifierSet;
    assert notes[..i + 1][..i] == notes[..i];
    NextCommitment(notes, i);
    NullifierSetSplit(notes[..i + 1], secret);
  }

  /** What a successful spend leaves unspent. */
  function AfterSpend(unspent: set<Bytes>, notes: seq<Note>, change: seq<Note>): set<Bytes> {
    unspent + CommitmentSet(change) - CommitmentSet(notes)
  }

  /** The change a spend creates: one fresh note with the excess over the amount required, if there is any. */
  ghost predicate ChangeFor(unspent: set<Bytes>, notes: seq<Note>, required: nat, change: seq<Note>,
                            valueOf: Bytes -> int) {
    var total := TotalValue(notes) % UINT64_RANGE;
    && total >= required
    && (if total == required then change == []
        else |change| == 1 && valueOf(change[0].commitment) == total - required && change[0].commitment !in unspent)
  }

  lemma ChangeAddsExcess(unspent: set<Bytes>, notes: seq<Note>, required: nat, change: seq<Note>, valueOf: Bytes -> int)
    requires ChangeFor(unspent, notes, required, change, valueOf) && DistinctNotes(unspent, notes, valueOf)
    ensures UnspentValue(AfterSpend(unspent, notes, change), valueOf)
         == UnspentValue(unspent - CommitmentSet(notes), valueOf) + TotalValue(notes) % UINT64_RANGE - required
  {
    var left := unspent - CommitmentSet(notes);
    if |change| == 1 {
      var c := change[0].commitment;
      CommitmentSetSplit(change);
      assert CommitmentSet(change) == {c};
      assert c !in CommitmentSet(notes);
      assert AfterSpend(unspent, notes, change) == left + {c};
      ValueWithout(left + {c}, c, valueOf);
      assert left + {c} - {c} == left;
    } else {
      assert AfterSpend(unspent, notes, change) == left;
    }
  }

  /**
   * Conservation: a successful spend lowers the unspent value by exactly the amount
   * required if and only if the values of the notes add up without wrapping at 2^64.
   */
  lemma SpendConservesExactly(unspent: set<Bytes>, notes: seq<Note>, required: nat, change: seq<Note>,
                              valueOf: Bytes -> int)
    requires DistinctNotes(unspent, notes, valueOf) && ChangeFor(unspent, notes, required, change, valueOf)
    ensures UnspentValue(AfterSpend(unspent, notes, change), valueOf) == UnspentValue(unspent, valueOf) - required
       <==> TotalValue(notes) < UINT64_RANGE
  {
    hide DistinctNotes, ChangeFor, UnspentValue, AfterSpend, TotalValue, CommitmentSet;
    SpendingTakesTotal(unspent, notes, valueOf);
    ChangeAddsExcess(unspent, notes, required, change, valueOf);
    FitsUnlessWrapped(TotalValue(notes));
  }

  /** Notes of 2^64 - 1 and 2 units wrap to a total of 1: a payment of 1 takes both, without change. */
  lemma WrappedSpendHappens(hash: Contents -> Commitment, valueOf: Bytes -> int)
    returns (unspent: set<Bytes>, notes: seq<Note>)
    requires forall c: Contents :: valueOf(hash(c)) == c.value
    ensures forall i :: 0 <= i < |notes| ==> notes[i].commitment == hash(notes[i].contents)
    ensures SpendablePrefix(unspent, {}, notes, []) == |notes| && TotalValue(notes) % UINT64_RANGE == 1
    ensures UnspentValue(AfterSpend(unspent, notes, []), valueOf) == UnspentValue(unspent, valueOf) - UINT64_RANGE - 1
  {
    hide UnspentValue;
    var one, two := Contents(UINT64_RANGE - 1, [], [1]), Contents(2, [], [2]);
    assert valueOf(hash(one)) != valueOf(hash(two));
    unspent, notes := {hash(one), hash(two)}, [Note(one, hash(one), 0), Note(two, hash(two), 0)];
    assert notes[..1] == [notes[0]] && notes[..1][..0] == [];
    assert TotalValue(notes[..1]) == UINT64_RANGE - 1;
    SpendableExactly(unspent, {}, notes, []);
    SpendingTakesTotal(unspent, notes, valueOf);
    assert AfterSpend(unspent, notes, []) == unspent - CommitmentSet(notes) by {
      CommitmentSetOne([]);
    }
  }

  lemma {:induction false} PrefixSpendable(unspent: set<Bytes>, nullifiers: set<Nullifier>, notes: seq<Note>,
                                           secret: Bytes)
    ensures var k := SpendablePrefix(unspent, nullifiers, notes, secret);
      AllSpendable(unspent, nullifiers, notes[..k], secret)
    decreases |notes|
  {
    var k := SpendablePrefix(unspent, nullifiers, notes, secret);
    if k > 0 {
      var c, u := notes[0].commitment, NullifierOf(notes[0], secret);
      PrefixSpendable(unspent - {c}, nullifiers + {u}, notes[1..], secret);
      SpendableExactly(unspent - {c}, nullifiers + {u}, notes[1..][..k - 1], secret);
      SpendableExactly(unspent, nullifiers, notes[..k], secret);
      assert notes[..k][1..] == notes[1..][..k - 1];
    }
  }

  /**
   * A spend that fails late still costs the notes before the first unspendable one, so it
   * leaves the value as it was exactly when those are worth nothing.
   */
  lemma LateFailureCosts(unspent: set<Bytes>, nullifiers: set<Nullifier>, notes: seq<Note>, secret: Bytes,
                         valueOf: Bytes -> int)
    requires forall i :: 0 <= i < |notes| ==> valueOf(notes[i].commitment) == notes[i].contents.value
    ensures var k := SpendablePrefix(unspent, nullifiers, notes, secret);
      UnspentValue(unspent - CommitmentSet(notes[..k]), valueOf)
          == UnspentValue(unspent, valueOf) - TotalValue(notes[..k])
  {
    PrefixSpendable(unspent, nullifiers, notes, secret);
    SpendingTakesTotal(unspent, notes[..SpendablePrefix(unspent, nullifiers, notes, secret)], valueOf);
  }

  /**
   * With notes of positive value, as all created ones are, a failed spend costs nothing
   * exactly if already the first note cannot be spent.
   */
  lemma LateFailureFreeExactly(unspent: set<Bytes>, nullifiers: set<Nullifier>, notes: seq<Note>, secret: Bytes,
                               valueOf: Bytes -> int)
    requires |notes| > 0
    requires forall i :: 0 <= i < |notes| ==> 0 < notes[i].contents.value == valueOf(notes[i].commitment)
    ensures var k := SpendablePrefix(unspent, nullifiers, notes, secret);
      UnspentValue(unspent - CommitmentSet(notes[..k]), valueOf) == UnspentValue(unspent, valueOf)
      <==> notes[0].commitment !in unspent || NullifierOf(notes[0], secret) in nullifiers
  {
    var k := SpendablePrefix(unspent, nullifiers, notes, secret);
    LateFailureCosts(unspent, nullifiers, notes, secret, valueOf);
    PositiveTotal(notes[..k]);
  }

  /**
   * The unspent value falls by the notes before the first unspendable one; if no note is
   * worthless, it stays exactly when that is the first of all.
   */
  ghost predicate LateFailureLoses(unspent: set<Bytes>, unspent1: set<Bytes>, nullifiers: set<Nullifier>,
                                   notes: seq<Note>, secret: Bytes, valueOf: Bytes -> int)
  {
    && |notes| > 0
    && UnspentValue(unspent1, valueOf) == UnspentValue(unspent, valueOf)
         - TotalValue(notes[..SpendablePrefix(unspent, nullifiers, notes, secret)])
    && ((forall i :: 0 <= i < |notes| ==> notes[i].contents.value > 0) ==>
          (UnspentValue(unspent1, valueOf) == UnspentValue(unspent, valueOf) <==>
             notes[0].commitment !in unspent || NullifierOf(notes[0], secret) in nullifiers))
  }

  lemma {:induction false} PositiveTotal(notes: seq<Note>)
    requires forall i :: 0 <= i < |notes| ==> notes[i].contents.value > 0
    ensures TotalValue(notes) >= |notes|
  {
    if |notes| > 0 {
      PositiveTotal(notes[..|notes| - 1]);
    }
  }

  /** A request whose second note is unknown fails, and still takes the first note out of the tree. */
  lemma LateFailureHappens(hash: Contents -> Commitment, valueOf: Bytes -> int)
    returns (unspent: set<Bytes>, notes: seq<Note>, secret: Bytes)
    requires forall c: Contents :: valueOf(hash(c)) == c.value
    ensures forall i :: 0 <= i < |notes| ==> notes[i].commitment == hash(notes[i].contents)
    ensures SpendablePrefix(unspent, {}, notes, secret) == 1 < |notes|
    ensures UnspentValue(unspent - CommitmentSet(notes[..1]), valueOf) == UnspentValue(unspent, valueOf) - 5
  {
    var one, two := Contents(5, [], [1]), Contents(7, [], [2]);
    assert valueOf(hash(one)) != valueOf(hash(two));
    unspent, notes, secret := {hash(one)}, [Note(one, hash(one), 0), Note(two, hash(two), 0)], [];
    var rest := notes[1..];
    assert SpendablePrefix(unspent - {hash(one)}, {} + {NullifierOf(notes[0], secret)}, rest, secret) == 0;
    LateFailureCosts(unspent, {}, notes, secret, valueOf);
    assert notes[..1][..0] == [];
  }

  lemma FitsUnlessWrapped(total: nat)
    ensures total % UINT64_RANGE == total <==> total < UINT64_RANGE
  {
  }

  // --- the keeper ---

  class Keeper {
    const hash: Contents -> Commitment
    const tree: CreditMerkleTree
    var persisted: map<Bytes, Bytes>
    var nullifiers: set<Nullifier>

    ghost predicate Valid()
      reads tree
    {
      tree.Valid() && Distinct(tree.commitments)
    }

    ghost function Unspent(): set<Bytes>
      reads tree
    {
      set c <- tree.commitments
    }

    constructor (hash: Contents -> Commitment)
      ensures Valid() && fresh(tree) && this.hash == hash
      ensures Unspent() == {} && persisted == map[] && nullifiers == {}
    {
      this.hash := hash;
      tree := new CreditMerkleTree();
      persisted := map[];
      nullifiers := {};
    }

    method AddCreditCommitment(c: Commitment)
      requires Valid()
      modifies `persisted, tree
      ensures Valid() && Unspent() == old(Unspent()) + {c}
      ensures persisted == old(persisted)[Prefix(c) := c]
    {
      tree.AddCommitment(c);
      persisted := persisted[Prefix(c) := c];
      forall d ensures d in tree.commitments <==> d in old(tree.commitments) || d == c {
        assert d in tree.commitments <==> d in multiset(tree.commitments);
      }
    }

    method SpendCreditCommitment(c: Commitment) returns (ok: bool)
      requires Valid()
      modifies `persisted, tree
      ensures Valid() && (ok <==> c in old(Unspent())) && Unspent() == old(Unspent()) - {c}
      ensures persisted == if ok then old(persisted) - {Prefix(c)} else old(persisted)
    {
      DistinctCount(tree.commitments, c);
      ok := tree.RemoveCommitment(c);
      forall d ensures d in tree.commitments <==> d in old(tree.commitments) && d != c {
        assert d in tree.commitments <==> d in multiset(tree.commitments);
      }
      if ok {
        persisted := persisted - {Prefix(c)};
      }
    }

    method MarkNullifier(u: Nullifier) returns (first: bool)
      modifies `nullifiers
      ensures first <==> u !in old(nullifiers)
      ensures nullifiers == old(nullifiers) + {u}
    {
      if u in nullifiers {
        return false;
      }
      nullifiers := nullifiers + {u};
      return true;
    }

    predicate VerifyCommitment(note: Note) {
      note.commitment == hash(note.contents)
    }

    method CreateCreditNote(value: Uint64, owner: Bytes, serial: Bytes, height: int) returns (r: Option<Note>)
      requires Valid()
      modifies `persisted, tree
      ensures Valid() && (r.Some? <==> value > 0)
      ensures r.Some? ==>
        && r.value == Note(Contents(value, owner, serial), hash(Contents(value, owner, serial)), height)
        && Unspent() == old(Unspent()) + {r.value.commitment}
        && persisted == old(persisted)[Prefix(r.value.commitment) := r.value.commitment]
      ensures r.None? ==> Unspent() == old(Unspent()) && persisted == old(persisted)
    {
      if value == 0 {
        return None;
      }
      var contents := Contents(value, owner, serial);
      var note := Note(contents, hash(contents), height);
      AddCreditCommitment(note.commitment);
      return Some(note);
    }

    method RollbackChangeNotes(change: seq<Note>)
      requires Valid()
      modifies `persisted, tree
      ensures Valid() && Unspent() == old(Unspent()) - CommitmentSet(change)
      ensures old(Mirrors(Unspent(), persisted) && AllPrefixFree(Unspent(), CommitmentSet(change))) ==>
        Mirrors(Unspent(), persisted)
    {
      hide CommitmentSet, Mirrors, PrefixFree;
      NoCommitments(change);
      for i := 0 to |change|
        invariant Valid()
        invariant Unspent() == old(Unspent()) - CommitmentSet(change[..i])
        invariant old(Mirrors(Unspent(), persisted) && AllPrefixFree(Unspent(), CommitmentSet(change))) ==>
          Mirrors(Unspent(), persisted)
      {
        var c := change[i].commitment;
        FreeAt(old(Unspent()), Unspent(), change, i);
        if Mirrors(Unspent(), persisted) && PrefixFree(Unspent(), c) {
          RemoveMirrors(Unspent(), persisted, c);
        }
        ghost var store := persisted;
        var removed := SpendCreditCommitment(c);
        persisted := persisted - {Prefix(c)};
        assert persisted == store - {Prefix(c)};
        NextCommitment(change, i);
      }
      assert change[..|change|] == change;
    }

    /** The checks made before any state changes. */
    predicate Admissible(notes: seq<Note>, required: Uint64) {
      && |notes| > 0 && required > 0
      && (forall i :: 0 <= i < |notes| ==> VerifyCommitment(notes[i]))
      && TotalValue(notes) % UINT64_RANGE >= required
    }

    /** One change note for the first owner, worth the excess over the amount required, if there is any. */
    function ChangeOf(notes: seq<Note>, required: Uint64, serial: Bytes): seq<Note>
      requires Admissible(notes, required)
    {
      var total := TotalValue(notes) % UINT64_RANGE;
      if total == required then []
      else
        var contents := Contents(total - required, notes[0].contents.owner, serial);
        [Note(contents, hash(contents), 0)]
    }

    /** valueOf opens every commitment to the value inside. */
    ghost predicate Opens(valueOf: Bytes -> int) {
      forall c: Contents :: valueOf(hash(c)) == c.value
    }

    method SumInputs(notes: seq<Note>) returns (total: Uint64, ok: bool)
      ensures ok <==> forall i :: 0 <= i < |notes| ==> VerifyCommitment(notes[i])
      ensures ok ==> total == TotalValue(notes) % UINT64_RANGE
    {
      total := 0;
      for i := 0 to |notes|
        invariant forall j :: 0 <= j < i ==> VerifyCommitment(notes[j])
        invariant total == TotalValue(notes[..i]) % UINT64_RANGE
      {
        if !VerifyCommitment(notes[i]) {
          return total, false;
        }
        total := (total + notes[i].contents.value) % UINT64_RANGE;
        assert notes[..i + 1][..i] == notes[..i];
      }
      assert notes[..|notes|] == notes;
      return total, true;
    }

    method MakeChange(notes: seq<Note>, total: Uint64, required: Uint64, serial: Bytes) returns (change: seq<Note>)
      requires Valid() && Admissible(notes, required) && total == TotalValue(notes) % UINT64_RANGE
      modifies `persisted, tree
      ensures Valid() && change == ChangeOf(notes, required, serial)
      ensures Unspent() == old(Unspent()) + CommitmentSet(change)
      ensures old(Mirrors(Unspent(), persisted) && AllPrefixFree(Unspent(), CommitmentSet(change))) ==>
        Mirrors(Unspent(), persisted)
    {
      if total == required {
        CommitmentSetOne([]);
        return [];
      }
      ghost var before, store := Unspent(), persisted;
      var created := CreateCreditNote(total - required, notes[0].contents.owner, serial, 0);
      change := [created.value];
      CommitmentSetOne(change);
      if Mirrors(before, store) {
        AddMirrorsExactly(before, store, created.value.commitment);
      }
    }

    /** Prove, mark and remove one note; a note that cannot be spent leaves everything as it was. */
    method SpendOne(note: Note, secret: Bytes) returns (e: Option<SpendError>)
      requires Valid()
      modifies `persisted, `nullifiers, tree
      ensures Valid()
      ensures var u := NullifierOf(note, secret);
        if note.commitment in old(Unspent()) && u !in old(nullifiers) then
          && e.None? && Unspent() == old(Unspent()) - {note.commitment} && nullifiers == old(nullifiers) + {u}
          && persisted == old(persisted) - {Prefix(note.commitment)}
        else
          e.Some? && Unspent() == old(Unspent()) && nullifiers == old(nullifiers) && persisted == old(persisted)
    {
      var proof := tree.GenerateProof(note.commitment);
      if proof.None? {
        return Some(NotInTree);
      }
      var root := tree.Root();
      var accepted := VerifyProof(root, proof, note.commitment);
      if !accepted {
        return Some(NotInTree);
      }
      var u := NullifierOf(note, secret);
      if u in nullifiers {
        return Some(DoubleSpend);
      }
      var marked := MarkNullifier(u);
      if !marked {
        return Some(DoubleSpend);
      }
      var removed := SpendCreditCommitment(note.commitment);
      if !removed {
        return Some(NotInTree);
      }
      return None;
    }

    /** Spend the notes from the front until one cannot be spent. */
    method SpendEach(notes: seq<Note>, secret: Bytes) returns (e: Option<SpendError>, used: seq<Nullifier>)
      requires Valid()
      modifies `persisted, `nullifiers, tree
      ensures Valid()
      ensures var k := SpendablePrefix(old(Unspent()), old(nullifiers), notes, secret);
        && (e.None? <==> k == |notes|)
        && Unspent() == old(Unspent()) - CommitmentSet(notes[..k])
        && nullifiers == old(nullifiers) + NullifierSet(notes[..k], secret)
        && |used| == k && (forall i :: 0 <= i < k ==> used[i] == NullifierOf(notes[i], secret))
      ensures old(Mirrors(Unspent(), persisted)) ==> Mirrors(Unspent(), persisted)
    {
      hide SpendablePrefix, CommitmentSet, NullifierSet, Mirrors;
      used := [];
      SpentSoFarStart(notes, secret);
      assert notes[0..] == notes;
      for i := 0 to |notes|
        invariant Valid()
        invariant SpendablePrefix(old(Unspent()), old(nullifiers), notes, secret)
               == i + SpendablePrefix(Unspent(), nullifiers, notes[i..], secret)
        invariant Unspent() == old(Unspent()) - CommitmentSet(notes[..i])
        invariant nullifiers == old(nullifiers) + NullifierSet(notes[..i], secret)
        invariant |used| == i && forall j :: 0 <= j < i ==> used[j] == NullifierOf(notes[j], secret)
        invariant old(Mirrors(Unspent(), persisted)) ==> Mirrors(Unspent(), persisted)
      {
        ghost var before, store := Unspent(), persisted;
        SpendableNext(Unspent(), nullifiers, notes, i, secret);
        e := SpendOne(notes[i], secret);
        if e.Some? {
          return e, used;
        }
        if old(Mirrors(Unspent(), persisted)) {
          MirrorsPrefixFree(before, store, notes[i].commitment);
          RemoveMirrors(before, store, notes[i].commitment);
        }
        used := used + [NullifierOf(notes[i], secret)];
        SpentSoFarNext(notes, i, secret);
      }
      SpendableNone(Unspent(), nullifiers, secret);
      assert notes[|notes|..] == [];
      return None, used;
    }

    /**
     * Spend notes worth at least `required`. The change is in the tree while the notes are
     * spent; a late failure takes it out again but keeps the notes before the first
     * unspendable one spent. A successful spend of new change lowers the unspent value by
     * exactly the amount required, unless the values of the notes wrap around; a late failure
     * lowers it by the notes before the first unspendable one.
     */
    method SpendCreditNotes(notes: seq<Note>, secret: Bytes, required: Uint64, changeSerial: Bytes,
                            ghost valueOf: Bytes -> int)
      returns (r: Result<SpendResult, SpendError>)
      requires Valid()
      modifies `persisted, `nullifiers, tree
      ensures Valid()
      ensures !Admissible(notes, required) ==>
        r.Failure? && Unspent() == old(Unspent()) && nullifiers == old(nullifiers) && persisted == old(persisted)
      ensures Admissible(notes, required) ==>
        var change := ChangeOf(notes, required, changeSerial);
        var k := SpendablePrefix(old(Unspent()) + CommitmentSet(change), old(nullifiers), notes, secret);
        && (r.Success? <==> k == |notes|)
        && nullifiers == old(nullifiers) + NullifierSet(notes[..k], secret)
        && (r.Success? ==> Unspent() == AfterSpend(old(Unspent()), notes, change))
        && (r.Failure? ==>
              Unspent() == AfterSpend(old(Unspent()), notes[..k], change) - CommitmentSet(change))
        && (old(Mirrors(Unspent(), persisted) && AllPrefixFree(Unspent(), CommitmentSet(change))) ==>
              Mirrors(Unspent(), persisted))
      ensures r.Success? <==>
        && |notes| > 0 && required > 0
        && (forall i :: 0 <= i < |notes| ==> notes[i].commitment == hash(notes[i].contents))
        && required <= TotalValue(notes) % UINT64_RANGE
        && SpendablePrefix(old(Unspent()) + CommitmentSet(ChangeOf(notes, required, changeSerial)), old(nullifiers),
                           notes, secret) == |notes|
      ensures r.Success? ==>
        var total := TotalValue(notes) % UINT64_RANGE;
        && r.value.changeNotes == ChangeOf(notes, required, changeSerial)
        && r.value.spent == notes && r.value.totalSpent == total && r.value.changeAmount == total - required
        && |r.value.nullifiers| == |notes|
        && (forall i :: 0 <= i < |notes| ==> r.value.nullifiers[i] == NullifierOf(notes[i], secret))
      ensures r.Success? ==>
        && (r.value.changeAmount == 0 ==> r.value.changeNotes == [])
        && (r.value.changeAmount > 0 ==>
              && |r.value.changeNotes| == 1
              && var note := r.value.changeNotes[0];
              && note.contents.owner == notes[0].contents.owner && note.contents.value == r.value.changeAmount
              && note.contents.serial == changeSerial && note.commitment == hash(note.contents)
              && note.blockCreated == 0)
      ensures r.Success? && Opens(valueOf) && ChangeIsNew(old(Unspent()), notes, r.value.changeNotes) ==>
        (TotalValue(notes) < UINT64_RANGE <==>
           UnspentValue(Unspent(), valueOf) == UnspentValue(old(Unspent()), valueOf) - required)
      ensures r.Failure? && Admissible(notes, required) && Opens(valueOf) &&
              ChangeIsNew(old(Unspent()), notes, ChangeOf(notes, required, changeSerial)) ==>
        LateFailureLoses(old(Unspent()), Unspent(), old(nullifiers), notes, secret, valueOf)
    {
      hide UnspentValue, SpendablePrefix, Mirrors, PrefixFree, AfterSpend, ChangeIsNew, LateFailureLoses;
      if |notes| == 0 {
        return Failure(NoNotes);
      }
      if required == 0 {
        return Failure(ZeroRequired);
      }
      var total, ok := SumInputs(notes);
      if !ok {
        return Failure(BadCommitment);
      }
      if total < required {
        return Failure(Insufficient);
      }
      ghost var before := Unspent();
      var change := MakeChange(notes, total, required, changeSerial);
      var e, used := SpendEach(notes, secret);
      ghost var k := SpendablePrefix(before + CommitmentSet(change), old(nullifiers), notes, secret);
      AfterSpendIs(before, notes[..k], change);
      if e.Some? {
        StillPrefixFree(before, notes[..k], change);
        RollbackChangeNotes(change);
        if Opens(valueOf) && ChangeIsNew(before, notes, change) {
          FailureCosts(before, old(nullifiers), notes, secret, required, changeSerial, valueOf);
        }
        return Failure(e.value);
      }
      assert notes[..|notes|] == notes;
      if Opens(valueOf) && ChangeIsNew(before, notes, change) {
        SuccessConserves(before, old(nullifiers), notes, secret, required, changeSerial, valueOf);
      }
      return Success(SpendResult(notes, used, change, total, total - required));
    }

    /** What a late failure means for the unspent value, from the request alone. */
    lemma FailureCosts(unspent: set<Bytes>, spent: set<Nullifier>, notes: seq<Note>, secret: Bytes,
                       required: Uint64, serial: Bytes, valueOf: Bytes -> int)
      requires Admissible(notes, required) && Opens(valueOf)
      requires ChangeIsNew(unspent, notes, ChangeOf(notes, required, serial))
      ensures var change := ChangeOf(notes, required, serial);
        var k := SpendablePrefix(unspent + CommitmentSet(change), spent, notes, secret);
        LateFailureLoses(unspent, AfterSpend(unspent, notes[..k], change) - CommitmentSet(change), spent,
                         notes, secret, valueOf)
    {
      hide UnspentValue, AfterSpend, SpendablePrefix;
      var change := ChangeOf(notes, required, serial);
      CommitmentSetOne(change);
      NewChangeIgnored(unspent, spent, notes, secret, change);
      assert forall i :: 0 <= i < |notes| ==> valueOf(notes[i].commitment) == notes[i].contents.value;
      LateFailureCosts(unspent, spent, notes, secret, valueOf);
      if forall i :: 0 <= i < |notes| ==> notes[i].contents.value > 0 {
        LateFailureFreeExactly(unspent, spent, notes, secret, valueOf);
      }
    }

    /** What success means for the unspent value, from the request alone. */
    lemma SuccessConserves(unspent: set<Bytes>, spent: set<Nullifier>, notes: seq<Note>, secret: Bytes,
                           required: Uint64, serial: Bytes, valueOf: Bytes -> int)
      requires Admissible(notes, required) && Opens(valueOf)
      requires var change := ChangeOf(notes, required, serial);
        && ChangeIsNew(unspent, notes, change)
        && SpendablePrefix(unspent + CommitmentSet(change), spent, notes, secret) == |notes|
      ensures TotalValue(notes) < UINT64_RANGE <==>
        UnspentValue(AfterSpend(unspent, notes, ChangeOf(notes, required, serial)), valueOf)
          == UnspentValue(unspent, valueOf) - required
    {
      hide UnspentValue, AfterSpend, SpendablePrefix;
      var change := ChangeOf(notes, required, serial);
      CommitmentSetOne(change);
      NewChangeIgnored(unspent, spent, notes, secret, change);
      SpendableExactly(unspent, spent, notes, secret);
      assert forall i :: 0 <= i < |notes| ==> valueOf(notes[i].commitment) == notes[i].contents.value;
      SpendConservesExactly(unspent, notes, required, change, valueOf);
    }
  }

  lemma AfterSpendIs(unspent: set<Bytes>, notes: seq<Note>, change: seq<Note>)
    ensures AfterSpend(unspent, notes, change) == unspent + CommitmentSet(change) - CommitmentSet(notes)
  {
  }

  lemma StillPrefixFree(unspent: set<Bytes>, notes: seq<Note>, change: seq<Note>)
    requires |change| <= 1
    ensures AllPrefixFree(unspent, CommitmentSet(change)) ==>
      AllPrefixFree(unspent + CommitmentSet(change) - CommitmentSet(notes), CommitmentSet(change))
  {
    CommitmentSetOne(change);
  }

  /** The change is neither in the tree yet nor among the notes being spent. */
  ghost predicate ChangeIsNew(unspent: set<Bytes>, notes: seq<Note>, change: seq<Note>) {
    CommitmentSet(change) !! unspent && CommitmentSet(change) !! CommitmentSet(notes)
  }

  /** New change neither helps nor hinders the spending of the notes, and leaves no trace when taken out again. */
  lemma NewChangeIgnored(unspent: set<Bytes>, nullifiers: set<Nullifier>, notes: seq<Note>, secret: Bytes,
                         change: seq<Note>)
    requires |change| <= 1 && ChangeIsNew(unspent, notes, change)
    ensures var k := SpendablePrefix(unspent + CommitmentSet(change), nullifiers, notes, secret);
      && k == SpendablePrefix(unspent, nullifiers, notes, secret)
      && AfterSpend(unspent, notes[..k], change) - CommitmentSet(change) == unspent - CommitmentSet(notes[..k])
  {
    CommitmentSetOne(change);
    assert forall i :: 0 <= i < |notes| ==> notes[i].commitment in CommitmentSet(notes);
    if |change| == 1 {
      SpendableIgnoresOther(unspent, nullifiers, notes, secret, change[0].commitment);
    } else {
      assert unspent + CommitmentSet(change) == unspent;
    }
  }

  lemma NullifierSetSplit(notes: seq<Note>, secret: Bytes)
    requires |notes| > 0
    ensures NullifierSet(notes, secret)
         == NullifierSet(notes[..|notes| - 1], secret) + {NullifierOf(notes[|notes| - 1], secret)}
  {
    var front := notes[..|notes| - 1];
    forall u ensures u in NullifierSet(notes, secret) <==>
      u in NullifierSet(front, secret) || u == NullifierOf(notes[|notes| - 1], secret)
    {
      if u in NullifierSet(notes, secret) {
        var i :| 0 <= i < |notes| && NullifierOf(notes[i], secret) == u;
        assert i < |front| ==> NullifierOf(front[i], secret) == u;
      }
      if u in NullifierSet(front, secret) {
        var i :| 0 <= i < |front| && NullifierOf(front[i], secret) == u;
        assert NullifierOf(notes[i], secret) == u;
      }
    }
  }
}
