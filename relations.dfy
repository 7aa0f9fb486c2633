/** The friend/enemy relation logic of the user store (addFriend, addEnemy,
    removeFriend, removeEnemy), stated as functions from the id -> record table
    before a call to the Step it produces. The class in UsersMongo performs the
    same guarded writes in place and is proved equal to these functions. */
module Relations {
  import opened Errors
  import opened Entities

  datatype Relation = Friend | Enemy {
    function Opposite(): Relation {
      if this == Friend then Enemy else Friend
    }
  }

  /** The list a user keeps for a relation. */
  function Listed(u: User, kind: Relation): seq<string> {
    match kind
    case Friend => u.friends
    case Enemy => u.enemies
  }

  /** u with the list for kind replaced by ids. */
  function WithListed(u: User, kind: Relation, ids: seq<string>): User {
    match kind
    case Friend => u.(friends := ids)
    case Enemy => u.(enemies := ids)
  }

  predicate NoDuplicates<T(==)>(s: seq<T>) {
    forall i, j :: 0 <= i < j < |s| ==> s[i] != s[j]
  }

  /** No id is both a friend and an enemy of the user. */
  predicate Exclusive(u: User) {
    forall x :: x in u.friends ==> x !in u.enemies
  }

  /** MongoDB's `$pull` with an equality condition: every occurrence of x is
      removed, and every other entry is kept, as often as it was there. */
  function Pull(s: seq<string>, x: string): (r: seq<string>)
    ensures multiset(r) == multiset(s)[x := 0]
    ensures x !in r
    ensures forall y :: y != x ==> (y in r <==> y in s)
    ensures x !in s ==> r == s
    ensures |r| <= |s|
  {
    if s == [] then []
    else
      assert s == [s[0]] + s[1..];
      if s[0] == x then Pull(s[1..], x) else [s[0]] + Pull(s[1..], x)
  }

  /** $pull works entry by entry, so it distributes over concatenation. */
  lemma {:induction false} PullAppend(a: seq<string>, b: seq<string>, x: string)
    ensures Pull(a + b, x) == Pull(a, x) + Pull(b, x)
  {
    if a == [] {
      assert a + b == b;
    } else {
      assert (a + b)[1..] == a[1..] + b;
      PullAppend(a[1..], b, x);
    }
  }

  /** The entries other than x keep their order: an occurrence of x between a
      and b goes, and a and b are pulled in place, so that a single occurrence
      of x out of a + [x] + b leaves exactly a + b. */
  lemma PullDropsOnly(a: seq<string>, b: seq<string>, x: string)
    ensures Pull(a + [x] + b, x) == Pull(a, x) + Pull(b, x)
    ensures x !in a && x !in b ==> Pull(a + [x] + b, x) == a + b
  {
    PullAppend(a + [x], b, x);
    PullAppend(a, [x], x);
    assert Pull([x], x) == Pull([], x) == [];
    assert Pull(a + [x], x) == Pull(a, x);
  }

  /** A duplicate-free list stays duplicate-free under $pull. */
  lemma {:induction false} PullNoDuplicates(s: seq<string>, x: string)
    requires NoDuplicates(s)
    ensures NoDuplicates(Pull(s, x))
  {
    if s != [] {
      assert NoDuplicates(s[1..]) by {
        forall i, j | 0 <= i < j < |s[1..]| ensures s[1..][i] != s[1..][j] {
          assert s[1..][i] == s[i + 1] && s[1..][j] == s[j + 1];
        }
      }
      PullNoDuplicates(s[1..], x);
      if s[0] != x {
        var rest := Pull(s[1..], x);
        assert s[0] !in s[1..] by {
          forall k | 0 <= k < |s[1..]| ensures s[1..][k] != s[0] {
            assert s[1..][k] == s[k + 1];
          }
        }
        assert s[0] !in rest;
        var r := [s[0]] + rest;
        forall i, j | 0 <= i < j < |r| ensures r[i] != r[j] {
          if i == 0 {
            assert r[j] == rest[j - 1];
          } else {
            assert r[i] == rest[i - 1] && r[j] == rest[j - 1];
          }
        }
      }
    }
  }

  /** A duplicate-free list with one id appended at the end, when it is absent,
      stays duplicate-free. */
  lemma AppendAbsentNoDuplicates(s: seq<string>, x: string)
    requires NoDuplicates(s) && x !in s
    ensures NoDuplicates(s + [x])
  {
    var r := s + [x];
    forall i, j | 0 <= i < j < |r| ensures r[i] != r[j] {
      if j == |s| {
        assert r[i] == s[i];
      } else {
        assert r[i] == s[i] && r[j] == s[j];
      }
    }
  }

  /** The record after a successful add of otherId: appended at the end of the
      target list ($push) and every occurrence pulled from the opposite list. */
  function Related(u: User, kind: Relation, otherId: string): User {
    match kind
    case Friend => u.(enemies := Pull(u.enemies, otherId), friends := u.friends + [otherId])
    case Enemy => u.(friends := Pull(u.friends, otherId), enemies := u.enemies + [otherId])
  }

  /** addFriend (kind Friend) and addEnemy (kind Enemy): the self check, the
      lookup of the acting user, the early return when otherId is already
      listed, and the $pull / $push writes. */
  function AddRelation(t: map<string, User>, kind: Relation, otherId: string, userId: string): Step {
    if otherId == userId then Step(Err(SelfReference), t)
    else if userId !in t then Step(Err(UserNotFound), t)
    else if otherId in Listed(t[userId], kind) then Step(Ok(t[userId]), t)
    else
      var v := Related(t[userId], kind, otherId);
      Step(Ok(v), t[userId := v])
  }

  /** removeFriend (kind Friend) and removeEnemy (kind Enemy): no self check,
      the lookup, the early return when otherId is not listed, and the $pull. */
  function RemoveRelation(t: map<string, User>, kind: Relation, otherId: string, userId: string): Step {
    if userId !in t then Step(Err(UserNotFound), t)
    else if otherId !in Listed(t[userId], kind) then Step(Ok(t[userId]), t)
    else
      var v := WithListed(t[userId], kind, Pull(Listed(t[userId], kind), otherId));
      Step(Ok(v), t[userId := v])
  }

  // ---------------------------------------------------------------------------
  // Adding a relation

  /** Relating a user to itself fails with 406 before any lookup: the 406 wins
      over the 404 of a missing user, and the table is untouched. */
  lemma AddRejectsSelf(t: map<string, User>, kind: Relation, id: string)
    ensures AddRelation(t, kind, id, id) == Step(Err(SelfReference), t)
  {
  }

  /** A missing acting user fails with 404 and the table is untouched. */
  lemma AddMissingUser(t: map<string, User>, kind: Relation, otherId: string, userId: string)
    requires otherId != userId && userId !in t
    ensures AddRelation(t, kind, otherId, userId) == Step(Err(UserNotFound), t)
  {
  }

  /** An id already in the target list gives back the stored record, unchanged. */
  lemma AddAlreadyListed(t: map<string, User>, kind: Relation, otherId: string, userId: string)
    requires otherId != userId && userId in t && otherId in Listed(t[userId], kind)
    ensures AddRelation(t, kind, otherId, userId) == Step(Ok(t[userId]), t)
  {
  }

  /** A second identical add is a no-op: same result, same table. */
  lemma AddIdempotent(t: map<string, User>, kind: Relation, otherId: string, userId: string)
    ensures var once := AddRelation(t, kind, otherId, userId);
            AddRelation(once.table, kind, otherId, userId) == once
  {
    var once := AddRelation(t, kind, otherId, userId);
    if otherId != userId && userId in t && otherId !in Listed(t[userId], kind) {
      assert Listed(once.table[userId], kind) == Listed(t[userId], kind) + [otherId];
    }
  }

  /** The write path: when otherId is absent from the target list it is
      appended at its end, every occurrence leaves the opposite list and the
      other entries of that list keep their order and multiplicity. The
      target id is never looked up: the add succeeds whether or not a record
      with that id exists. */
  lemma AddWrites(t: map<string, User>, kind: Relation, otherId: string, userId: string)
    requires otherId != userId && userId in t && otherId !in Listed(t[userId], kind)
    ensures var s := AddRelation(t, kind, otherId, userId);
            s.result.Ok? && s.result.value == s.table[userId] &&
            Listed(s.result.value, kind) == Listed(t[userId], kind) + [otherId] &&
            otherId !in Listed(s.result.value, kind.Opposite()) &&
            multiset(Listed(s.result.value, kind.Opposite())) ==
              multiset(Listed(t[userId], kind.Opposite()))[otherId := 0] &&
            Listed(s.result.value, kind.Opposite()) == Pull(Listed(t[userId], kind.Opposite()), otherId)
  {
  }

  /** After any successful add, otherId is in the target list, and it is out
      of the opposite list exactly unless it was listed on both sides
      beforehand (the early return then leaves both lists as they were). */
  lemma AddEstablishes(t: map<string, User>, kind: Relation, otherId: string, userId: string)
    requires AddRelation(t, kind, otherId, userId).result.Ok?
    ensures var u := t[userId];
            var v := AddRelation(t, kind, otherId, userId).result.value;
            otherId in Listed(v, kind) &&
            (otherId !in Listed(v, kind.Opposite()) <==>
               !(otherId in Listed(u, kind) && otherId in Listed(u, kind.Opposite())))
  {
  }

  /** Nothing outside the acting user's two lists changes: same keys, every
      other record identical, the acting record's profile intact, and a
      successful call resolves with the stored record. */
  lemma AddFrame(t: map<string, User>, kind: Relation, otherId: string, userId: string)
    ensures var s := AddRelation(t, kind, otherId, userId);
            s.table.Keys == t.Keys &&
            (forall k :: k in t && k != userId ==> s.table[k] == t[k]) &&
            (userId in t ==> SameProfile(s.table[userId], t[userId])) &&
            (s.result.Ok? ==> s.result.value == s.table[userId])
  {
  }

  /** Duplicate-free lists stay duplicate-free: the push happens only when
      the id is absent, and $pull introduces nothing. */
  lemma AddPreservesNoDuplicates(t: map<string, User>, kind: Relation, otherId: string, userId: string)
    requires userId in t && NoDuplicates(t[userId].friends) && NoDuplicates(t[userId].enemies)
    ensures var u := AddRelation(t, kind, otherId, userId).table[userId];
            NoDuplicates(u.friends) && NoDuplicates(u.enemies)
  {
    var u := t[userId];
    if otherId != userId && otherId !in Listed(u, kind) {
      match kind
      case Friend =>
        AppendAbsentNoDuplicates(u.friends, otherId);
        PullNoDuplicates(u.enemies, otherId);
      case Enemy =>
        AppendAbsentNoDuplicates(u.enemies, otherId);
        PullNoDuplicates(u.friends, otherId);
    }
  }

  /** A user with disjoint friend and enemy lists keeps them disjoint. */
  lemma AddPreservesExclusive(t: map<string, User>, kind: Relation, otherId: string, userId: string)
    requires userId in t && Exclusive(t[userId])
    ensures Exclusive(AddRelation(t, kind, otherId, userId).table[userId])
  {
    var u := t[userId];
    var v := AddRelation(t, kind, otherId, userId).table[userId];
    if otherId != userId && otherId !in Listed(u, kind) {
      forall x | x in v.friends ensures x !in v.enemies {
        if x != otherId {
          assert x in v.friends ==> x in u.friends;
          assert x in v.enemies ==> x in u.enemies;
        }
      }
    }
  }

  /** An add never makes a user its own friend or enemy. */
  lemma AddNoSelfReference(t: map<string, User>, kind: Relation, otherId: string, userId: string)
    requires userId in t && userId !in t[userId].friends && userId !in t[userId].enemies
    ensures var v := AddRelation(t, kind, otherId, userId).table[userId];
            userId !in v.friends && userId !in v.enemies
  {
  }

  /** Befriending and then declaring an enemy leaves the id among the enemies,
      and out of the friends exactly unless it was on both lists beforehand:
      then both early returns fire and it stays on both. Other ids that sit on
      both lists do not matter. */
  lemma FriendThenEnemy(t: map<string, User>, otherId: string, userId: string)
    requires otherId != userId && userId in t
    ensures var s1 := AddRelation(t, Friend, otherId, userId);
            var s2 := AddRelation(s1.table, Enemy, otherId, userId);
            s2.result.Ok? && otherId in s2.table[userId].enemies &&
            (otherId !in s2.table[userId].friends <==>
               !(otherId in t[userId].friends && otherId in t[userId].enemies))
  {
    var s1 := AddRelation(t, Friend, otherId, userId);
    AddEstablishes(t, Friend, otherId, userId);
    AddFrame(t, Friend, otherId, userId);
  }

  /** A user a1 with no friends and b1 as its only enemy who befriends b1 ends
      with friends [b1] and no enemies. */
  lemma EnemyBecomesFriend(other: map<string, User>)
    ensures var a1 := User("a1", "a@x", "h", "A", "A", 30, [], ["b1"]);
            var s := AddRelation(other["a1" := a1], Friend, "b1", "a1");
            s.result.Ok? && s.result.value.friends == ["b1"] && s.result.value.enemies == []
  {
    assert Pull(["b1"], "b1") == Pull([], "b1");
  }

  // ---------------------------------------------------------------------------
  // Removing a relation

  /** A missing acting user fails with 404 and the table is untouched. */
  lemma RemoveMissingUser(t: map<string, User>, kind: Relation, otherId: string, userId: string)
    requires userId !in t
    ensures RemoveRelation(t, kind, otherId, userId) == Step(Err(UserNotFound), t)
  {
  }

  /** An id absent from the list gives back the stored record, unchanged; an
      id equal to the acting user's is not refused. */
  lemma RemoveAbsent(t: map<string, User>, kind: Relation, otherId: string, userId: string)
    requires userId in t && otherId !in Listed(t[userId], kind)
    ensures RemoveRelation(t, kind, otherId, userId) == Step(Ok(t[userId]), t)
  {
  }

  /** A successful remove takes every occurrence of otherId out of that list
      only: the other entries keep their multiplicity, the opposite list and
      the profile are untouched, and no other record changes. */
  lemma RemoveWrites(t: map<string, User>, kind: Relation, otherId: string, userId: string)
    requires userId in t
    ensures var s := RemoveRelation(t, kind, otherId, userId);
            var v := s.table[userId];
            s.result == Ok(v) && s.table.Keys == t.Keys &&
            (forall k :: k in t && k != userId ==> s.table[k] == t[k]) &&
            SameProfile(v, t[userId]) &&
            otherId !in Listed(v, kind) &&
            multiset(Listed(v, kind)) == multiset(Listed(t[userId], kind))[otherId := 0] &&
            Listed(v, kind) == Pull(Listed(t[userId], kind), otherId) &&
            Listed(v, kind.Opposite()) == Listed(t[userId], kind.Opposite())
  {
    var u := t[userId];
    if otherId !in Listed(u, kind) {
      assert multiset(Listed(u, kind))[otherId] == 0;
      assert multiset(Listed(u, kind))[otherId := 0] == multiset(Listed(u, kind));
    }
  }

  /** A second identical remove is a no-op. */
  lemma RemoveIdempotent(t: map<string, User>, kind: Relation, otherId: string, userId: string)
    ensures var once := RemoveRelation(t, kind, otherId, userId);
            RemoveRelation(once.table, kind, otherId, userId) == once
  {
    var once := RemoveRelation(t, kind, otherId, userId);
    if userId in t {
      RemoveWrites(t, kind, otherId, userId);
    }
  }

  /** Removing keeps lists duplicate-free and disjoint, and keeps a user out
      of its own lists. */
  lemma RemovePreserves(t: map<string, User>, kind: Relation, otherId: string, userId: string)
    requires userId in t
    ensures var u := t[userId];
            var v := RemoveRelation(t, kind, otherId, userId).table[userId];
            (NoDuplicates(u.friends) && NoDuplicates(u.enemies) ==>
               NoDuplicates(v.friends) && NoDuplicates(v.enemies)) &&
            (Exclusive(u) ==> Exclusive(v)) &&
            (userId !in u.friends && userId !in u.enemies ==>
               userId !in v.friends && userId !in v.enemies)
  {
    var u := t[userId];
    if NoDuplicates(u.friends) && NoDuplicates(u.enemies) {
      PullNoDuplicates(Listed(u, kind), otherId);
    }
  }
}
