/** The roles of a Kingdoms game and how many of each a game deals. */
module Roles {

  /** The five roles, named as in the role and goal tables of bot.py. */
  datatype Role = King | Knight | Bandit | Assassin | Usurper

  /** The role list shuffled among the players other than the King, by the size
      of that pool; only pools of 4 and 5 have one. */
  function OtherRoles(poolSize: nat): (roles: seq<Role>)
    requires poolSize == 4 || poolSize == 5
    ensures |roles| == poolSize
    ensures King !in roles
  {
    if poolSize == 4 then [Knight, Bandit, Bandit, Assassin]
    else [Knight, Bandit, Bandit, Assassin, Usurper]
  }

  /** How many copies of `role` a game of `players` players deals, as the goal
      texts describe them: one King, one Knight, two Bandits, one Assassin, and
      one Usurper only in a six-player game. An independent reference for the
      role lists above. */
  function Expected(players: nat, role: Role): (n: nat)
  {
    match role
    case King => 1
    case Knight => 1
    case Bandit => 2
    case Assassin => 1
    case Usurper => if players == 6 then 1 else 0
  }

  /** The roles whose goals the rules summary lists for a game of `players` players. */
  function RulesRoles(players: nat): (roles: seq<Role>)
    ensures |roles| == (if players == 5 then 4 else 5)
    ensures roles[0] == King && Knight in roles && Bandit in roles && Assassin in roles
    ensures Usurper in roles <==> players != 5
  {
    if players == 5 then [King, Knight, Bandit, Assassin]
    else [King, Knight, Bandit, Assassin, Usurper]
  }

  /** Number of keys of `m` holding `role`. */
  function RoleCount<K>(m: map<K, Role>, role: Role): (n: nat)
  {
    |set k | k in m && m[k] == role|
  }

  /** The fixed role list of a pool, plus the King, deals exactly the counts the
      goal texts announce for a game one player larger. */
  lemma DealtRolesMatchGoals(poolSize: nat, role: Role)
    requires poolSize == 4 || poolSize == 5
    ensures multiset(OtherRoles(poolSize))[role] + (if role == King then 1 else 0)
            == Expected(poolSize + 1, role)
  {
    var roles := OtherRoles(poolSize);
    assert roles == [Knight, Bandit] + [Bandit, Assassin] + (if poolSize == 4 then [] else [Usurper]);
  }

  /** The rules summary sent to every player names a role exactly when the game
      deals at least one copy of it. */
  lemma RulesListTheDealtRoles(players: nat, role: Role)
    requires players == 5 || players == 6
    ensures role in RulesRoles(players) <==> Expected(players, role) > 0
  {
  }

  /** Giving a fresh key a role adds one to that role's count and leaves every
      other count alone. */
  lemma RoleCountInsert<K>(m: map<K, Role>, k: K, v: Role, role: Role)
    requires k !in m
    ensures RoleCount(m[k := v], role) == RoleCount(m, role) + (if v == role then 1 else 0)
  {
    var before := set x | x in m && m[x] == role;
    var m' := m[k := v];
    var after := set x | x in m' && m'[x] == role;
    if v == role {
      assert after == before + {k};
    } else {
      assert after == before;
    }
  }
}
