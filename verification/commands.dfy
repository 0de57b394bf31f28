/** The command handlers of bot.py around the engine: the validation gate of
    `new_game` (lines 101-128) and the `kingdoms` dispatch (lines 155-171).
    Member resolution (`is_valid_user` and `MemberConverter.convert`) is an
    oracle `resolve`: a token names a member exactly when it resolves to
    `Some`. Sending messages is not modelled; the outcomes say what would be
    sent. */
module Commands {
  import opened Wrappers
  import opened Roles
  import opened Engine

  /** The literal token that splits King-eligible players from the others. */
  const SeparatorToken: string := "--"

  const HelpMessage: string := "Please use \"!kingdoms about\" for more information"
  const ErrorMessage: string := "Invalid command specified. " + HelpMessage

  /** Number of tokens that are not the separator (see `CountPlayersSkipsSeparators`). */
  function CountPlayers(args: seq<string>): (n: nat)
  {
    if |args| == 0 then 0
    else CountPlayers(args[..|args| - 1]) + (if args[|args| - 1] != SeparatorToken then 1 else 0)
  }

  /** The player tokens that do not resolve to a member, in the order given. */
  function InvalidTokens(args: seq<string>, resolve: string -> Option<UserId>): (r: seq<string>)
    ensures |r| <= |args|
    ensures forall k :: 0 <= k < |r| ==> r[k] != SeparatorToken && resolve(r[k]).None?
  {
    if |args| == 0 then []
    else
      var last := args[|args| - 1];
      InvalidTokens(args[..|args| - 1], resolve)
        + (if last != SeparatorToken && resolve(last).None? then [last] else [])
  }

  /** Every player token resolves to a member. */
  predicate AllResolve(args: seq<string>, resolve: string -> Option<UserId>)
  {
    forall t :: t in args && t != SeparatorToken ==> resolve(t).Some?
  }

  /** The list handed to the engine: each player token replaced by its
      member, the separator kept in place. */
  function ResolveTokens(args: seq<string>, resolve: string -> Option<UserId>): (users: seq<Slot>)
    requires AllResolve(args, resolve)
    ensures |users| == |args|
    ensures forall i :: 0 <= i < |args| ==> (users[i] == Separator <==> args[i] == SeparatorToken)
    ensures forall i :: 0 <= i < |args| && args[i] != SeparatorToken ==> users[i] == Player(resolve(args[i]).value)
  {
    seq(|args|, i requires 0 <= i < |args| =>
      if args[i] == SeparatorToken then Separator else Player(resolve(args[i]).value))
  }

  /** The members a command names. */
  ghost function Members(args: seq<string>, resolve: string -> Option<UserId>): set<Slot>
  {
    set t | t in args && t != SeparatorToken && resolve(t).Some? :: Player(resolve(t).value)
  }

  /** No separator occurs after another one. */
  predicate AtMostOneSeparator(args: seq<string>)
  {
    forall i, j :: 0 <= i < j < |args| && args[i] == SeparatorToken ==> args[j] != SeparatorToken
  }

  /** Distinct player tokens name distinct members. */
  predicate DistinctMembers(args: seq<string>, resolve: string -> Option<UserId>)
  {
    forall i, j :: 0 <= i < j < |args| && args[i] != SeparatorToken && args[j] != SeparatorToken
                   ==> resolve(args[i]) != resolve(args[j])
  }

  /** The commands the engine is meant for: 5 or 6 players, all of them
      members, all different, at most one separator, and somebody before it. */
  predicate WellFormedGame(args: seq<string>, resolve: string -> Option<UserId>)
  {
    && 5 <= CountPlayers(args) <= 6
    && AllResolve(args, resolve)
    && DistinctMembers(args, resolve)
    && AtMostOneSeparator(args)
    && args[0] != SeparatorToken
  }

  /** What one `new` command ends in. */
  datatype GameOutcome =
    | WrongPlayerCount(count: nat)
    | UnknownUsers(tokens: seq<string>)
    | Crashed(error: Error)
    | Started(roles: map<Slot, Role>, king: Slot, players: nat)

  /** The member crowned in a map with exactly one King, as `next(...)` over
      the keys finds him. */
  function KingOf(roles: map<Slot, Role>): (king: Slot)
    requires RoleCount(roles, King) == 1
    ensures king in roles && roles[king] == King
  {
    OneKingIsUnique(roles);
    var king :| king in roles && roles[king] == King;
    king
  }

  /** A map with one King has exactly one key holding the role. */
  lemma OneKingIsUnique(roles: map<Slot, Role>)
    requires RoleCount(roles, King) == 1
    ensures exists k :: k in roles && roles[k] == King
    ensures forall a, b :: a in roles && roles[a] == King && b in roles && roles[b] == King ==> a == b
  {
    var kings := set k | k in roles && roles[k] == King;
    assert |kings| == 1;
    var k :| k in kings;
    assert |kings - {k}| == 0;
    forall a, b | a in roles && roles[a] == King && b in roles && roles[b] == King
      ensures a == b
    {
      assert a !in kings - {k} && b !in kings - {k};
    }
  }

  /** The loop of `new_game` that looks every player token up, in command
      order, and collects the ones that fail. */
  method CollectInvalidUsers(args: seq<string>, resolve: string -> Option<UserId>) returns (invalid: seq<string>)
    ensures invalid == InvalidTokens(args, resolve)
  {
    invalid := [];
    for i := 0 to |args|
      invariant invalid == InvalidTokens(args[..i], resolve)
    {
      assert args[..i + 1][..i] == args[..i];
      if args[i] != SeparatorToken && resolve(args[i]).None? {
        invalid := invalid + [args[i]];
      }
    }
    assert args[..|args|] == args;
  }

  /** `new_game`: count the players first; only then look every player token
      up and report all that fail; only then deal the roles. `pick` and
      `draws` are the random choices of the engine. */
  function NewGame(args: seq<string>, resolve: string -> Option<UserId>, pick: nat, draws: nat -> nat): (out: GameOutcome)
    ensures out.WrongPlayerCount? <==> CountPlayers(args) < 5 || CountPlayers(args) > 6
    ensures out.WrongPlayerCount? ==> out.count == CountPlayers(args)
    ensures out.UnknownUsers? <==> 5 <= CountPlayers(args) <= 6 && !AllResolve(args, resolve)
    ensures out.UnknownUsers? ==> out.tokens == InvalidTokens(args, resolve)
    ensures out.Started? ==>
              && out.players == CountPlayers(args)
              && out.king in out.roles && out.roles[out.king] == King
              && RoleCount(out.roles, King) == 1
  {
    var n := CountPlayers(args);
    if n < 5 || n > 6 then WrongPlayerCount(n)
    else
      NoInvalidTokens(args, resolve);
      var invalid := InvalidTokens(args, resolve);
      if |invalid| > 0 then UnknownUsers(invalid)
      else
        var users := ResolveTokens(args, resolve);
        var dealt := AssignUsers(users, pick, draws);
        if dealt.Failure? then Crashed(dealt.error)
        else
          AssignUsersCrownsOneEligibleKing(users, pick, draws);
          Started(dealt.value, KingOf(dealt.value), n)
  }

  /** Once the count and the lookups pass, the engine raises in the King draw
      exactly when the command starts with `--`; its other error needs a
      second `--`. */
  lemma NewGameCrashes(args: seq<string>, resolve: string -> Option<UserId>, pick: nat, draws: nat -> nat)
    requires 5 <= CountPlayers(args) <= 6 && AllResolve(args, resolve)
    ensures NewGame(args, resolve, pick, draws) == Crashed(EmptyRange) <==> args[0] == SeparatorToken
    ensures NewGame(args, resolve, pick, draws).Crashed? ==>
              (NewGame(args, resolve, pick, draws).error.InvalidUserCount? ==> !AtMostOneSeparator(args))
  {
    NoInvalidTokens(args, resolve);
    ResolvedShape(args, resolve);
  }

  /** The announced King is the member of a token listed before any `--`. */
  lemma NewGameKingIsEligible(args: seq<string>, resolve: string -> Option<UserId>, pick: nat, draws: nat -> nat)
    requires 5 <= CountPlayers(args) <= 6 && AllResolve(args, resolve)
    requires AtMostOneSeparator(args) && args[0] != SeparatorToken
    ensures NewGame(args, resolve, pick, draws).Started?
    ensures exists i :: 0 <= i < |args| && SeparatorToken !in args[..i + 1] && resolve(args[i]).Some?
                        && NewGame(args, resolve, pick, draws).king == Player(resolve(args[i]).value)
  {
    ResolvedShape(args, resolve);
    var users := ResolveTokens(args, resolve);
    AssignUsersCrownsOneEligibleKing(users, pick, draws);
    NewGameDeals(args, resolve, pick, draws);
    KingToken(args, resolve, users, NewGame(args, resolve, pick, draws).king);
  }

  /** A well-formed command starts a game in which every named member, and
      nobody else, is dealt a role, each role as often as the goal texts
      announce for that many players. */
  lemma NewGameDealsWellFormed(args: seq<string>, resolve: string -> Option<UserId>, pick: nat, draws: nat -> nat)
    requires WellFormedGame(args, resolve)
    ensures NewGame(args, resolve, pick, draws).Started?
    ensures NewGame(args, resolve, pick, draws).roles.Keys == Members(args, resolve)
    ensures forall role :: RoleCount(NewGame(args, resolve, pick, draws).roles, role)
                           == Expected(CountPlayers(args), role)
  {
    ResolvedShape(args, resolve);
    var users := ResolveTokens(args, resolve);
    WellFormedDistinct(args, resolve);
    AssignUsersKeys(users, pick, draws);
    AssignUsersRoleCounts(users, pick, draws);
    ResolvedMembers(args, resolve);
    NewGameDeals(args, resolve, pick, draws);
  }

  /** Once the count and the lookups pass and the engine succeeds, the game
      starts with the engine's map. */
  lemma NewGameDeals(args: seq<string>, resolve: string -> Option<UserId>, pick: nat, draws: nat -> nat)
    requires 5 <= CountPlayers(args) <= 6 && AllResolve(args, resolve)
    requires AssignUsers(ResolveTokens(args, resolve), pick, draws).Success?
    ensures NewGame(args, resolve, pick, draws).Started?
    ensures NewGame(args, resolve, pick, draws).roles == AssignUsers(ResolveTokens(args, resolve), pick, draws).value
    ensures HoldsKing(AssignUsers(ResolveTokens(args, resolve), pick, draws).value, NewGame(args, resolve, pick, draws).king)
  {
    NoInvalidTokens(args, resolve);
  }

  /** `kingdoms`: what a command does, by its first token. */
  datatype Dispatch = Reply(message: string) | SendAbout | StartGame(tokens: seq<string>)

  /** `str.lower` on the characters that matter here: ASCII capitals. */
  function LowerChar(c: char): char
  {
    if 'A' <= c <= 'Z' then (c as int + 32) as char else c
  }

  function Lower(s: string): (r: string)
    ensures |r| == |s|
    ensures forall i :: 0 <= i < |s| ==> !('A' <= r[i] <= 'Z')
    ensures forall i :: 0 <= i < |s| && !('A' <= s[i] <= 'Z') ==> r[i] == s[i]
  {
    seq(|s|, i requires 0 <= i < |s| => LowerChar(s[i]))
  }

  /** `s` spells the lower-case word `w`, each letter in either case. */
  ghost predicate SpellsIgnoringCase(s: string, w: string)
  {
    && |s| == |w|
    && forall i :: 0 <= i < |s| ==>
         s[i] == w[i] || ('a' <= w[i] <= 'z' && s[i] as int == w[i] as int - 32)
  }

  /** The top-level dispatch: an empty command is an error; `about` and `new`
      match in any case; `new` passes on the tokens after it; otherwise a
      first token that names a member starts a game with all the tokens. */
  function Kingdoms(args: seq<string>, resolve: string -> Option<UserId>): (d: Dispatch)
    ensures args == [] ==> d == Reply(ErrorMessage)
    ensures args != [] && SpellsIgnoringCase(args[0], "about") ==> d == SendAbout
    ensures args != [] && SpellsIgnoringCase(args[0], "new") ==> d == StartGame(args[1..])
    ensures args != [] && !SpellsIgnoringCase(args[0], "about") && !SpellsIgnoringCase(args[0], "new") ==>
              (resolve(args[0]).Some? ==> d == StartGame(args))
              && (resolve(args[0]).None? ==> d == Reply(ErrorMessage))
  {
    if |args| == 0 then Reply(ErrorMessage)
    else
      var command := args[0];
      LowerIsCaseBlindMatch(command, "about");
      LowerIsCaseBlindMatch(command, "new");
      if Lower(command) == "about" then SendAbout
      else if Lower(command) == "new" then StartGame(args[1..])
      else if resolve(command).Some? then StartGame(args)
      else Reply(ErrorMessage)
  }

  /** Lower-casing a token gives a lower-case word exactly when the token
      spells that word in some mix of cases. */
  lemma LowerIsCaseBlindMatch(s: string, w: string)
    requires forall i :: 0 <= i < |w| ==> !('A' <= w[i] <= 'Z')
    ensures Lower(s) == w <==> SpellsIgnoringCase(s, w)
  {
    if SpellsIgnoringCase(s, w) {
      assert forall i :: 0 <= i < |s| ==> Lower(s)[i] == w[i];
    }
    if Lower(s) == w {
      forall i | 0 <= i < |s|
        ensures s[i] == w[i] || ('a' <= w[i] <= 'z' && s[i] as int == w[i] as int - 32)
      {
        assert LowerChar(s[i]) == w[i];
      }
    }
  }

  /** The reported tokens are exactly the player tokens that fail to resolve. */
  lemma {:induction false} InvalidTokensExact(args: seq<string>, resolve: string -> Option<UserId>, t: string)
    ensures t in InvalidTokens(args, resolve) <==> t in args && t != SeparatorToken && resolve(t).None?
  {
    if |args| > 0 {
      var n := |args| - 1;
      InvalidTokensExact(args[..n], resolve, t);
      assert args == args[..n] + [args[n]];
    }
  }

  /** The report keeps the command's order: the report for two runs of tokens
      is the report for the first followed by the report for the second. */
  lemma {:induction false} InvalidTokensInOrder(a: seq<string>, b: seq<string>, resolve: string -> Option<UserId>)
    ensures InvalidTokens(a + b, resolve) == InvalidTokens(a, resolve) + InvalidTokens(b, resolve)
  {
    if |b| > 0 {
      var n := |b| - 1;
      assert (a + b)[..|a + b| - 1] == a + b[..n];
      InvalidTokensInOrder(a, b[..n], resolve);
    } else {
      assert a + b == a;
    }
  }

  /** The report is empty exactly when every player token resolves. */
  lemma NoInvalidTokens(args: seq<string>, resolve: string -> Option<UserId>)
    ensures InvalidTokens(args, resolve) == [] <==> AllResolve(args, resolve)
  {
    var report := InvalidTokens(args, resolve);
    if report == [] {
      forall t | t in args && t != SeparatorToken
        ensures resolve(t).Some?
      {
        InvalidTokensExact(args, resolve, t);
      }
    } else {
      InvalidTokensExact(args, resolve, report[0]);
    }
  }

  /** The player count is the number of tokens less the number of `--`. */
  lemma {:induction false} CountPlayersSkipsSeparators(args: seq<string>)
    ensures CountPlayers(args) == |args| - multiset(args)[SeparatorToken]
  {
    if |args| > 0 {
      var n := |args| - 1;
      assert args == args[..n] + [args[n]];
      CountPlayersSkipsSeparators(args[..n]);
    }
  }

  /** With at most one separator, the player count is the number of tokens
      less the separator. */
  lemma {:induction false} CountWithOneSeparator(args: seq<string>)
    requires AtMostOneSeparator(args)
    ensures CountPlayers(args) == |args| - (if SeparatorToken in args then 1 else 0)
  {
    if |args| > 0 {
      var n := |args| - 1;
      assert args == args[..n] + [args[n]];
      assert AtMostOneSeparator(args[..n]);
      CountWithOneSeparator(args[..n]);
      if args[n] == SeparatorToken {
        assert SeparatorToken !in args[..n];
      }
    }
  }

  /** How the resolved list mirrors the tokens. */
  lemma ResolvedShape(args: seq<string>, resolve: string -> Option<UserId>)
    requires AllResolve(args, resolve) && CountPlayers(args) >= 5
    ensures var users := ResolveTokens(args, resolve);
            && users != [] && (users[0] == Separator <==> args[0] == SeparatorToken)
            && (Separator in users <==> SeparatorToken in args)
            && (AtMostOneSeparator(args) ==> PoolSize(users) == CountPlayers(args) - 1)
  {
    var users := ResolveTokens(args, resolve);
    if Separator in users {
      var i :| 0 <= i < |users| && users[i] == Separator;
      assert args[i] == SeparatorToken;
    }
    if SeparatorToken in args {
      var i :| 0 <= i < |args| && args[i] == SeparatorToken;
      assert users[i] == Separator;
    }
    if AtMostOneSeparator(args) {
      CountWithOneSeparator(args);
    }
  }

  /** A well-formed command resolves to a list without repeated entries. */
  lemma WellFormedDistinct(args: seq<string>, resolve: string -> Option<UserId>)
    requires WellFormedGame(args, resolve)
    ensures Distinct(ResolveTokens(args, resolve))
  {
    var users := ResolveTokens(args, resolve);
    forall i, j | 0 <= i < j < |users|
      ensures users[i] != users[j]
    {
      if args[i] != SeparatorToken && args[j] != SeparatorToken {
        assert resolve(args[i]) != resolve(args[j]);
        assert args[i] in args && args[j] in args;
      }
    }
  }

  /** The listed members of the resolved list are the members the command names. */
  lemma ResolvedMembers(args: seq<string>, resolve: string -> Option<UserId>)
    requires AllResolve(args, resolve)
    ensures (set u | u in ResolveTokens(args, resolve) && u.Player?) == Members(args, resolve)
  {
    var users := ResolveTokens(args, resolve);
    forall u | u in users && u.Player?
      ensures u in Members(args, resolve)
    {
      var i :| 0 <= i < |users| && users[i] == u;
      assert args[i] in args;
    }
    forall u | u in Members(args, resolve)
      ensures u in users
    {
      var t :| t in args && t != SeparatorToken && resolve(t).Some? && u == Player(resolve(t).value);
      var i :| 0 <= i < |args| && args[i] == t;
      assert users[i] == u;
    }
  }

  /** The King the engine crowns is the member of a token listed before any
      separator. */
  lemma KingToken(args: seq<string>, resolve: string -> Option<UserId>, users: seq<Slot>, king: Slot)
    requires AllResolve(args, resolve) && users == ResolveTokens(args, resolve)
    requires king.Player? && BeforeAnySeparator(users, king)
    ensures exists i :: 0 <= i < |args| && SeparatorToken !in args[..i + 1]
                        && resolve(args[i]).Some? && king == Player(resolve(args[i]).value)
  {
    var i :| 0 <= i < |users| && users[i] == king && Separator !in users[..i];
    assert args[i] != SeparatorToken;
    assert args[i] in args;
  }
}
