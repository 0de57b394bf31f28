/** The role-assignment engine of bot.py (lines 187-231): find the `--`
    separator, draw the King from the users before it, and deal the fixed,
    shuffled role list to everybody else. The random choices are parameters:
    `pick` stands behind `randrange(0, n)` (the King is entry `pick % n`), and
    `draws` behind the shuffle (see module Shuffling). */
module Engine {
  import opened Wrappers
  import opened Roles
  import opened Shuffling

  /** A server member, identified as discord.py compares members: by user id. */
  type UserId = nat

  /** An entry of the list the engine receives: a resolved server member, or
      the `--` sentinel the command handler leaves in place. */
  datatype Slot = Separator | Player(id: UserId)

  /** What `get_index_of` returns for a missing target. */
  const NotFound: int := -1

  /** The two `ValueError`s the engine can raise: `randrange` over an empty
      range, and a pool whose size has no role list. */
  datatype Error = EmptyRange | InvalidUserCount(count: nat)

  /** The King and the users left over once he is taken out. */
  datatype Split<U> = Split(king: U, others: seq<U>)

  /** No entry occurs twice. */
  predicate Distinct<T(==)>(s: seq<T>)
  {
    forall i, j :: 0 <= i < j < |s| ==> s[i] != s[j]
  }

  /** `u` occurs in `users` at a position with no separator before it. */
  ghost predicate BeforeAnySeparator(users: seq<Slot>, u: Slot)
  {
    exists i :: 0 <= i < |users| && users[i] == u && Separator !in users[..i]
  }

  /** `u` holds the King role in `m`. */
  ghost predicate HoldsKing<K>(m: map<K, Role>, u: K)
  {
    u in m && m[u] == King
  }

  /** Position of the first occurrence of `target`, or `NotFound`. */
  function IndexOf<T(==)>(xs: seq<T>, target: T): (r: int)
    ensures r == NotFound <==> target !in xs
    ensures r != NotFound ==> 0 <= r < |xs| && xs[r] == target && target !in xs[..r]
  {
    if |xs| == 0 then NotFound
    else if xs[0] == target then 0
    else
      var r := IndexOf(xs[1..], target);
      assert xs == [xs[0]] + xs[1..];
      if r == NotFound then NotFound else r + 1
  }

  /** The users who may be King: those before the first separator, or all of
      them when there is none. */
  function KingEligible(users: seq<Slot>): (r: seq<Slot>)
  {
    var i := IndexOf(users, Separator);
    if i == NotFound then users else users[..i]
  }

  /** The users after the first separator; they always join the pool. */
  function Excluded(users: seq<Slot>): (r: seq<Slot>)
  {
    var i := IndexOf(users, Separator);
    if i == NotFound then [] else users[i + 1..]
  }

  /** Size of the pool that `assign_other_roles` receives: every entry but the
      King and the first separator. */
  function PoolSize(users: seq<Slot>): (r: int)
  {
    |users| - (if Separator in users then 2 else 1)
  }

  /** The lists `assign_users` deals without raising: somebody before the
      first separator, and a pool of 4 or 5 after the King is taken out. */
  predicate Assignable(users: seq<Slot>)
  {
    users != [] && users[0] != Separator && (PoolSize(users) == 4 || PoolSize(users) == 5)
  }

  /** Takes the King out of `users`; the others keep their order. */
  function SeparateKingAndOthers<U>(users: seq<U>, pick: nat): (r: Result<Split<U>, Error>)
    ensures r.Failure? <==> |users| == 0
    ensures r.Failure? ==> r.error == EmptyRange
    ensures r.Success? ==> |r.value.others| == |users| - 1
    ensures r.Success? ==> multiset(r.value.others) + multiset{r.value.king} == multiset(users)
    ensures r.Success? ==>
              exists k :: 0 <= k < |users| && users[k] == r.value.king
                          && r.value.others == users[..k] + users[k + 1..]
  {
    if |users| == 0 then Failure(EmptyRange)
    else
      var k := pick % |users|;
      assert users == users[..k] + [users[k]] + users[k + 1..];
      Success(Split(users[k], users[..k] + users[k + 1..]))
  }

  /** `dict(zip(ks, vs))`: pairs are inserted in order, so a repeated key would
      keep the value paired with its last occurrence. */
  function ZipMap<K(==), V>(ks: seq<K>, vs: seq<V>): (m: map<K, V>)
    requires |ks| == |vs|
    ensures m.Keys == set k | k in ks
    ensures forall k :: k in m ==> m[k] in vs
  {
    if |ks| == 0 then map[]
    else
      var n := |ks| - 1;
      ZipMap(ks[..n], vs[..n])[ks[n] := vs[n]]
  }

  /** For distinct keys, each key is paired with the value at its own position. */
  lemma {:induction false} ZipMapAt<K, V>(ks: seq<K>, vs: seq<V>, i: nat)
    requires |ks| == |vs| && Distinct(ks) && i < |ks|
    ensures ZipMap(ks, vs)[ks[i]] == vs[i]
  {
    var n := |ks| - 1;
    var m := ZipMap(ks[..n], vs[..n]);
    assert ZipMap(ks, vs) == m[ks[n] := vs[n]];
    if i < n {
      assert Distinct(ks[..n]);
      ZipMapAt(ks[..n], vs[..n], i);
      assert ks[..n][i] == ks[i];
      assert vs[..n][i] == vs[i];
      assert ks[i] != ks[n];
    }
  }

  /** For distinct keys, the dealt map holds each role as often as the dealt list. */
  lemma {:induction false} ZipMapRoleCount<K>(ks: seq<K>, vs: seq<Role>, role: Role)
    requires |ks| == |vs| && Distinct(ks)
    ensures RoleCount(ZipMap(ks, vs), role) == multiset(vs)[role]
  {
    if |ks| > 0 {
      var n := |ks| - 1;
      assert Distinct(ks[..n]);
      ZipMapRoleCount(ks[..n], vs[..n], role);
      assert ks[n] !in ks[..n];
      RoleCountInsert(ZipMap(ks[..n], vs[..n]), ks[n], vs[n], role);
      assert vs == vs[..n] + [vs[n]];
    }
  }

  /** Deals the shuffled role list to a pool of 4 or 5 users. Any other pool
      size raises before anything is dealt. */
  function AssignOtherRoles<U(==)>(users: seq<U>, draws: nat -> nat): (r: Result<map<U, Role>, Error>)
    ensures r.Failure? <==> |users| != 4 && |users| != 5
    ensures r.Failure? ==> r.error == InvalidUserCount(|users|)
    ensures r.Success? ==> r.value.Keys == set u | u in users
    ensures r.Success? ==> forall u :: u in r.value ==> r.value[u] != King
  {
    if |users| < 4 || |users| > 5 then Failure(InvalidUserCount(|users|))
    else
      var roles := Shuffle(OtherRoles(|users|), draws);
      assert King !in multiset(OtherRoles(|users|));
      assert King !in roles;
      Success(ZipMap(users, roles))
  }

  /** For a pool of distinct users, user i gets the i-th entry of the shuffled
      role list, and the map deals the pool's fixed role list exactly: the
      same roles, each as many times. */
  lemma AssignOtherRolesDeals<U>(users: seq<U>, draws: nat -> nat)
    requires |users| == 4 || |users| == 5
    requires Distinct(users)
    ensures AssignOtherRoles(users, draws).Success?
    ensures forall i :: 0 <= i < |users| ==>
              AssignOtherRoles(users, draws).value[users[i]] == Shuffle(OtherRoles(|users|), draws)[i]
    ensures forall role :: RoleCount(AssignOtherRoles(users, draws).value, role) == multiset(OtherRoles(|users|))[role]
  {
    var roles := Shuffle(OtherRoles(|users|), draws);
    forall i | 0 <= i < |users|
      ensures ZipMap(users, roles)[users[i]] == roles[i]
    {
      ZipMapAt(users, roles, i);
    }
    forall role
      ensures RoleCount(ZipMap(users, roles), role) == multiset(OtherRoles(|users|))[role]
    {
      ZipMapRoleCount(users, roles, role);
    }
  }

  /** `assign_users`: the King comes from the users before the first separator,
      everybody else (including the users after it) is dealt a non-King role.
      It raises when nobody precedes the separator, and when the pool left
      after the King has no role list. */
  function AssignUsers(users: seq<Slot>, pick: nat, draws: nat -> nat): (r: Result<map<Slot, Role>, Error>)
    ensures r == Failure(EmptyRange) <==> users == [] || users[0] == Separator
    ensures r.Success? <==> Assignable(users)
    ensures r.Failure? && r.error.InvalidUserCount? ==> r.error.count == PoolSize(users)
  {
    PartSizes(users);
    var split := SeparateKingAndOthers(KingEligible(users), pick);
    if split.Failure? then Failure(split.error)
    else
      var pool := split.value.others + Excluded(users);
      assert |pool| == PoolSize(users);
      var roles := AssignOtherRoles(pool, draws);
      if roles.Failure? then Failure(roles.error)
      else Success(roles.value[split.value.king := King])
  }

  /** The sizes of the two parts of the list. */
  lemma PartSizes(users: seq<Slot>)
    ensures |KingEligible(users)| == 0 <==> users == [] || users[0] == Separator
    ensures |KingEligible(users)| + |Excluded(users)| == |users| - (if Separator in users then 1 else 0)
  {
    EligibleShape(users);
  }

  /** Whatever the random choices, a successful assignment has exactly one
      King, and he is a member listed before any separator. */
  lemma AssignUsersCrownsOneEligibleKing(users: seq<Slot>, pick: nat, draws: nat -> nat)
    requires Assignable(users)
    ensures AssignUsers(users, pick, draws).Success?
    ensures RoleCount(AssignUsers(users, pick, draws).value, King) == 1
    ensures forall u :: HoldsKing(AssignUsers(users, pick, draws).value, u) ==>
              u.Player? && BeforeAnySeparator(users, u)
  {
    var eligible := KingEligible(users);
    var split := SeparateKingAndOthers(eligible, pick).value;
    var roles := AssignOtherRoles(split.others + Excluded(users), draws).value;
    var m := roles[split.king := King];
    assert AssignUsers(users, pick, draws).value == m;
    var k :| 0 <= k < |eligible| && eligible[k] == split.king;
    EligibleIsBeforeAnySeparator(users, k);
    OnlyKingHoldsKing(roles, split.king, m);
    forall u | HoldsKing(m, u)
      ensures u.Player? && BeforeAnySeparator(users, u)
    {
      assert u == split.king;
    }
  }

  /** The eligible prefix holds no separator, is empty exactly when the list
      starts with one, and with the excluded part it covers every entry but
      the first separator. */
  lemma EligibleShape(users: seq<Slot>)
    ensures Separator !in KingEligible(users)
    ensures |KingEligible(users)| == 0 <==> users == [] || users[0] == Separator
    ensures KingEligible(users) == users[..|KingEligible(users)|]
    ensures |KingEligible(users)| < |users| ==> users[|KingEligible(users)|] == Separator
    ensures |KingEligible(users)| + |Excluded(users)| == |users| - (if Separator in users then 1 else 0)
    ensures Separator in users ==>
              users == KingEligible(users) + [Separator] + Excluded(users)
    ensures Separator !in users ==> KingEligible(users) == users && Excluded(users) == []
  {
    var i := IndexOf(users, Separator);
    if i != NotFound {
      assert users == users[..i] + [Separator] + users[i + 1..];
    }
  }

  /** Every eligible entry is listed before any separator. */
  lemma EligibleIsBeforeAnySeparator(users: seq<Slot>, k: nat)
    requires k < |KingEligible(users)|
    ensures BeforeAnySeparator(users, KingEligible(users)[k])
  {
    var eligible := KingEligible(users);
    EligibleShape(users);
    assert users[..k] == eligible[..k];
    assert users[k] == eligible[k];
  }

  /** Crowning a user not in a King-free map leaves exactly one King, him. */
  lemma OnlyKingHoldsKing<K>(roles: map<K, Role>, king: K, m: map<K, Role>)
    requires forall u :: u in roles ==> roles[u] != King
    requires m == roles[king := King]
    ensures RoleCount(m, King) == 1
    ensures forall u :: HoldsKing(m, u) ==> u == king
  {
    assert (set u | u in m && m[u] == King) == {king};
  }

  /** The non-King entries are exactly what `assign_other_roles` dealt to the
      pool: crowning the King changes nothing else. */
  lemma AssignUsersKeepsPoolRoles(users: seq<Slot>, pick: nat, draws: nat -> nat)
    requires Distinct(users)
    requires Assignable(users)
    ensures AssignUsers(users, pick, draws).Success?
    ensures var split := SeparateKingAndOthers(KingEligible(users), pick).value;
            var pool := AssignOtherRoles(split.others + Excluded(users), draws);
            pool.Success? && split.king !in pool.value
            && AssignUsers(users, pick, draws).value == pool.value[split.king := King]
  {
    var s := SeparateKingAndOthers(KingEligible(users), pick);
    PoolDistinct(users, pick, s, s.value.others + Excluded(users));
  }

  /** The converse of the eligibility rule: any member listed before every
      separator is crowned by some outcome of the King draw, whatever the
      shuffle does. */
  lemma EveryEligibleUserCanBeKing(users: seq<Slot>, draws: nat -> nat, i: nat)
    requires i < |users| && Separator !in users[..i + 1]
    requires PoolSize(users) == 4 || PoolSize(users) == 5
    ensures exists pick: nat :: AssignUsers(users, pick, draws).Success?
                                && HoldsKing(AssignUsers(users, pick, draws).value, users[i])
  {
    var eligible := KingEligible(users);
    EligibleIndex(users, i);
    assert users[0] == users[..i + 1][0];
    assert i % |eligible| == i;
    var split := SeparateKingAndOthers(eligible, i).value;
    assert split.king == users[i];
    var roles := AssignOtherRoles(split.others + Excluded(users), draws).value;
    var r := AssignUsers(users, i, draws);
    assert r.Success?;
    assert r.value == roles[users[i] := King];
    assert HoldsKing(r.value, users[i]);
  }

  /** A member listed before every separator sits at the same position of
      the eligible prefix. */
  lemma EligibleIndex(users: seq<Slot>, i: nat)
    requires i < |users| && Separator !in users[..i + 1]
    ensures i < |KingEligible(users)| && KingEligible(users)[i] == users[i]
  {
    EligibleShape(users);
  }

  /** Only the first `--` separates: a later one stays in the pool and, when
      the assignment succeeds, is dealt a role like a player. */
  lemma SecondSeparatorIsDealtARole(users: seq<Slot>, pick: nat, draws: nat -> nat, i: nat, j: nat)
    requires Assignable(users)
    requires i < j < |users| && users[i] == Separator && users[j] == Separator
    ensures AssignUsers(users, pick, draws).Success?
    ensures Separator in AssignUsers(users, pick, draws).value
  {
    ListedAfterSeparator(users, IndexOf(users, Separator), j);
    var s := SeparateKingAndOthers(KingEligible(users), pick);
    var pool := s.value.others + Excluded(users);
    assert Separator in pool;
    assert AssignUsers(users, pick, draws).value == AssignOtherRoles(pool, draws).value[s.value.king := King];
  }

  /** Six players and two `--`, a player first: the second `--` joins the
      pool, which then holds six entries, and no role list fits it. */
  lemma SecondSeparatorOverfillsSixPlayers(users: seq<Slot>, pick: nat, draws: nat -> nat)
    requires |users| == 8 && multiset(users)[Separator] == 2
    requires users[0] != Separator
    ensures AssignUsers(users, pick, draws) == Failure(InvalidUserCount(6))
  {
    assert Separator in multiset(users);
  }

  /** For a list of distinct entries (so at most one separator), the map's
      keys are exactly the listed members: every one of them is dealt a role,
      and the separator is not. */
  lemma AssignUsersKeys(users: seq<Slot>, pick: nat, draws: nat -> nat)
    requires Distinct(users)
    requires Assignable(users)
    ensures AssignUsers(users, pick, draws).Success?
    ensures AssignUsers(users, pick, draws).value.Keys == set u | u in users && u.Player?
  {
    var s := SeparateKingAndOthers(KingEligible(users), pick);
    var pool := s.value.others + Excluded(users);
    var m := AssignUsers(users, pick, draws).value;
    assert m.Keys == (set u | u in pool) + {s.value.king};
    PoolMembers(users, pick, s, pool);
    SameMembers(pool, s.value.king, users);
  }

  /** Set form of `PoolMembers`. */
  lemma SameMembers(pool: seq<Slot>, king: Slot, users: seq<Slot>)
    requires forall u :: u in pool || u == king <==> u in users && u.Player?
    ensures (set u | u in pool) + {king} == set u | u in users && u.Player?
  {
  }

  /** For a list of distinct entries, each role is dealt exactly as often as
      the goal texts announce for a game of that many players. */
  lemma AssignUsersRoleCounts(users: seq<Slot>, pick: nat, draws: nat -> nat)
    requires Distinct(users)
    requires Assignable(users)
    ensures AssignUsers(users, pick, draws).Success?
    ensures forall role :: RoleCount(AssignUsers(users, pick, draws).value, role) == Expected(PoolSize(users) + 1, role)
  {
    var s := SeparateKingAndOthers(KingEligible(users), pick);
    var king := s.value.king;
    var pool := s.value.others + Excluded(users);
    var roles := AssignOtherRoles(pool, draws).value;
    assert AssignUsers(users, pick, draws).value == roles[king := King];
    assert |pool| == PoolSize(users);
    PoolDistinct(users, pick, s, pool);
    AssignOtherRolesDeals(pool, draws);
    CrownedCounts(roles, king, |pool|, roles[king := King]);
  }

  /** Crowning a fresh key on top of a pool's fixed role list yields the role
      counts the goal texts announce. */
  lemma CrownedCounts<K>(roles: map<K, Role>, king: K, poolSize: nat, crowned: map<K, Role>)
    requires poolSize == 4 || poolSize == 5
    requires king !in roles && crowned == roles[king := King]
    requires forall role :: RoleCount(roles, role) == multiset(OtherRoles(poolSize))[role]
    ensures forall role :: RoleCount(crowned, role) == Expected(poolSize + 1, role)
  {
    forall role
      ensures RoleCount(crowned, role) == Expected(poolSize + 1, role)
    {
      RoleCountInsert(roles, king, King, role);
      DealtRolesMatchGoals(poolSize, role);
    }
  }

  /** For a list of distinct entries, everybody listed after the separator is
      dealt a role, and it is not King. */
  lemma AssignUsersExcludedNeverKing(users: seq<Slot>, pick: nat, draws: nat -> nat)
    requires Distinct(users)
    requires Assignable(users)
    ensures AssignUsers(users, pick, draws).Success?
    ensures forall i, j :: 0 <= i < j < |users| && users[i] == Separator ==>
              users[j] in AssignUsers(users, pick, draws).value
              && AssignUsers(users, pick, draws).value[users[j]] != King
  {
    var s := SeparateKingAndOthers(KingEligible(users), pick);
    var king := s.value.king;
    var pool := s.value.others + Excluded(users);
    var roles := AssignOtherRoles(pool, draws).value;
    assert AssignUsers(users, pick, draws).value == roles[king := King];
    PoolDistinct(users, pick, s, pool);
    forall i, j | 0 <= i < j < |users| && users[i] == Separator
      ensures users[j] in roles && users[j] != king
    {
      SeparatorIsFirst(users, i);
      ListedAfterSeparator(users, i, j);
    }
  }

  /** The pool and the King, plus the first separator if any, are exactly the
      entries of the list. */
  lemma PoolMultiset(users: seq<Slot>, pick: nat, s: Result<Split<Slot>, Error>, pool: seq<Slot>)
    requires s == SeparateKingAndOthers(KingEligible(users), pick) && s.Success?
    requires pool == s.value.others + Excluded(users)
    ensures multiset(pool) + multiset{s.value.king}
              + (if Separator in users then multiset{Separator} else multiset{}) == multiset(users)
  {
    EligibleShape(users);
    assert multiset(pool) + multiset{s.value.king} == multiset(KingEligible(users)) + multiset(Excluded(users));
  }

  /** With distinct entries, the pool is distinct and misses the King. */
  lemma PoolDistinct(users: seq<Slot>, pick: nat, s: Result<Split<Slot>, Error>, pool: seq<Slot>)
    requires Distinct(users)
    requires s == SeparateKingAndOthers(KingEligible(users), pick) && s.Success?
    requires pool == s.value.others + Excluded(users)
    ensures Distinct(pool) && s.value.king !in pool
  {
    PoolMultiset(users, pick, s, pool);
    DistinctPart(users, pool, s.value.king, if Separator in users then multiset{Separator} else multiset{});
  }

  /** A list and one more entry that, with something else, make up a distinct
      list are distinct and miss that entry. */
  lemma DistinctPart<T>(users: seq<T>, pool: seq<T>, king: T, rest: multiset<T>)
    requires Distinct(users)
    requires multiset(pool) + multiset{king} + rest == multiset(users)
    ensures Distinct(pool) && king !in pool
  {
    assert multiset(pool + [king]) <= multiset(users);
    DistinctOfSubMultiset(users, pool + [king]);
    assert pool == (pool + [king])[..|pool|];
    assert (pool + [king])[|pool|] == king;
  }

  /** With distinct entries, the pool together with the King holds exactly
      the listed members. */
  lemma PoolMembers(users: seq<Slot>, pick: nat, s: Result<Split<Slot>, Error>, pool: seq<Slot>)
    requires Distinct(users)
    requires s == SeparateKingAndOthers(KingEligible(users), pick) && s.Success?
    requires pool == s.value.others + Excluded(users)
    ensures forall u :: u in pool || u == s.value.king <==> u in users && u.Player?
  {
    var king := s.value.king;
    PoolMultiset(users, pick, s, pool);
    EligibleShape(users);
    DistinctMultiplicity(users, Separator);
    assert Separator !in multiset(pool) + multiset{king};
    forall u
      ensures u in pool || u == king <==> u in users && u.Player?
    {
      assert u in pool || u == king <==> u in multiset(pool) + multiset{king};
      assert u in users <==> u in multiset(users);
    }
  }

  /** In a distinct list, a separator is the first one. */
  lemma SeparatorIsFirst(users: seq<Slot>, i: nat)
    requires Distinct(users) && i < |users| && users[i] == Separator
    ensures IndexOf(users, Separator) == i
  {
    var first := IndexOf(users, Separator);
    assert users[first] == users[i];
  }

  /** An entry listed after the first separator belongs to the excluded part. */
  lemma ListedAfterSeparator(users: seq<Slot>, i: nat, j: nat)
    requires IndexOf(users, Separator) == i < j < |users|
    ensures users[j] in Excluded(users)
  {
    assert users[j] == users[i + 1..][j - i - 1];
  }

  /** A distinct list holds each value at most once. */
  lemma {:induction false} DistinctMultiplicity<T>(s: seq<T>, x: T)
    requires Distinct(s)
    ensures multiset(s)[x] <= 1
  {
    if |s| > 0 {
      var n := |s| - 1;
      assert s == s[..n] + [s[n]];
      assert Distinct(s[..n]);
      DistinctMultiplicity(s[..n], x);
      if s[n] == x {
        assert x !in s[..n];
      }
    }
  }

  /** A value at two positions of a list occurs in it at least twice. */
  lemma TwoPositions<T>(t: seq<T>, i: nat, j: nat)
    requires i < j < |t| && t[i] == t[j]
    ensures multiset(t)[t[i]] >= 2
  {
    assert t == t[..j] + [t[j]] + t[j + 1..];
    assert t[..j][i] == t[i];
  }

  /** Any list whose entries are drawn, without repetition, from a distinct
      list is itself distinct. */
  lemma DistinctOfSubMultiset<T>(s: seq<T>, t: seq<T>)
    requires Distinct(s)
    requires multiset(t) <= multiset(s)
    ensures Distinct(t)
  {
    forall i, j | 0 <= i < j < |t|
      ensures t[i] != t[j]
    {
      if t[i] == t[j] {
        TwoPositions(t, i, j);
        DistinctMultiplicity(s, t[i]);
      }
    }
  }
}
