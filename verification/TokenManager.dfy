/** The list of users whose session token must be refreshed, and the flag that the database keeps for each of
    them (web/auth/jwt_update.go, web/auth/jwt.go:37-48). Every access to the database may fail. */
module TokenManager {
  import opened Sequences

  /** The flag of every user, and the list. */
  datatype State = State(flags: map<nat, bool>, tokens: seq<nat>)

  /** What happens to the manager. `ok` says whether the database does what is asked, `signed` whether a new
      token can be made, and `users` is the order in which the database lists all users at a restart. */
  datatype Event =
    | Add(user: nat, ok: bool)
    | Remove(user: nat, ok: bool)
    | UpdateCookie(user: nat, expired: bool, signed: bool, ok: bool)
    | Restart(users: seq<nat>)
    | NewUser(user: nat)

  function Flagged(flags: map<nat, bool>): set<nat> { set u | u in flags && flags[u] }

  function IsFlagged(flags: map<nat, bool>): nat -> bool { u => u in flags && flags[u] }

  function Added(s: State, user: nat, ok: bool): State {
    if user in s.tokens || !ok || user !in s.flags then s
    else State(s.flags[user := true], s.tokens + [user])
  }

  function Removed(s: State, user: nat, ok: bool): State {
    if user !in s.tokens || !ok || user !in s.flags then s
    else State(s.flags[user := false], Filter(Except(user), s.tokens))
  }

  function Next(s: State, e: Event): State {
    match e
    case Add(user, ok) => Added(s, user, ok)
    case Remove(user, ok) => Removed(s, user, ok)
    case UpdateCookie(user, expired, signed, ok) =>
      if (user in s.tokens || expired) && signed then Removed(s, user, ok) else s
    case Restart(users) => s.(tokens := Filter(IsFlagged(s.flags), users))
    case NewUser(user) => if user in s.flags then s else s.(flags := s.flags[user := false])
  }

  /** The list has no duplicates and holds exactly the users whose flag is set. */
  ghost predicate Agrees(s: State) {
    NoRepeats(s.tokens) && forall u :: u in s.tokens <==> u in Flagged(s.flags)
  }

  /** At a restart the database lists every user once. */
  ghost predicate WellFormed(s: State, e: Event) {
    e.Restart? ==> NoRepeats(e.users) && forall u :: u in e.users <==> u in s.flags
  }

  lemma RemoveKeepsAgreement(s: State, user: nat, ok: bool)
    requires Agrees(s)
    ensures Agrees(Removed(s, user, ok))
  {
    FilterMembers(Except(user), s.tokens);
    FilterKeepsNoRepeats(Except(user), s.tokens);
  }

  lemma StepKeepsAgreement(s: State, e: Event)
    requires Agrees(s) && WellFormed(s, e)
    ensures Agrees(Next(s, e))
  {
    match e {
      case Remove(user, ok) => RemoveKeepsAgreement(s, user, ok);
      case UpdateCookie(user, expired, signed, ok) => RemoveKeepsAgreement(s, user, ok);
      case Restart(users) =>
        FilterMembers(IsFlagged(s.flags), users);
        FilterKeepsNoRepeats(IsFlagged(s.flags), users);
      case _ =>
    }
  }

  // ---------- runs ----------

  function After(s: State, events: seq<Event>): State {
    if |events| == 0 then s else Next(After(s, events[..|events| - 1]), events[|events| - 1])
  }

  ghost predicate Run(s: State, events: seq<Event>) {
    forall i :: 0 <= i < |events| ==> WellFormed(After(s, events[..i]), events[i])
  }

  lemma RunPrefix(s: State, events: seq<Event>, k: nat)
    requires Run(s, events) && k <= |events|
    ensures Run(s, events[..k])
  {
    forall i | 0 <= i < k ensures WellFormed(After(s, events[..k][..i]), events[..k][i]) {
      assert events[..k][..i] == events[..i];
    }
  }

  /** Whatever fails, the list and the flags agree after every run. */
  lemma {:induction false} RunKeepsAgreement(s: State, events: seq<Event>)
    requires Agrees(s) && Run(s, events)
    ensures Agrees(After(s, events))
  {
    var n := |events|;
    if n > 0 {
      RunPrefix(s, events, n - 1);
      RunKeepsAgreement(s, events[..n - 1]);
      StepKeepsAgreement(After(s, events[..n - 1]), events[n - 1]);
    }
  }

  /** A restart after any run rebuilds the same set of users. */
  lemma RestartRebuildsTheSet(s: State, events: seq<Event>, users: seq<nat>)
    requires Agrees(s) && Run(s, events) && WellFormed(After(s, events), Restart(users))
    ensures forall u :: u in Next(After(s, events), Restart(users)).tokens <==> u in After(s, events).tokens
  {
    RunKeepsAgreement(s, events);
    FilterMembers(IsFlagged(After(s, events).flags), users);
  }

  /** The user was there at the start, or has been created since. */
  predicate Known(s: State, events: seq<Event>, u: nat) { u in s.flags || NewUser(u) in events }

  lemma {:induction false} KnownUsers(s: State, events: seq<Event>, u: nat)
    ensures u in After(s, events).flags <==> Known(s, events, u)
  {
    if |events| > 0 {
      var front, e := events[..|events| - 1], events[|events| - 1];
      KnownUsers(s, front, u);
      assert events == front + [e];
    }
  }

  /** Whether the user is to be refreshed according to the last request about him that did not fail; a request to
      add a user who does not exist fails. */
  predicate LastWord(s: State, events: seq<Event>, u: nat) {
    if |events| == 0 then u in s.tokens
    else
      var e, front := events[|events| - 1], events[..|events| - 1];
      match e
      case Add(user, ok) => (user == u && ok && Known(s, front, u)) || LastWord(s, front, u)
      case Remove(user, ok) => !(user == u && ok) && LastWord(s, front, u)
      case UpdateCookie(user, expired, signed, ok) => !(user == u && signed && ok) && LastWord(s, front, u)
      case Restart(users) => LastWord(s, front, u)
      case NewUser(user) => LastWord(s, front, u)
  }

  /** A user, also one created during the run, stays on the list from the request to add him until a new token
      has been made for him or he is removed: failed requests and restarts change nothing. */
  lemma {:induction false} ListFollowsLastWord(s: State, events: seq<Event>, u: nat)
    requires Agrees(s) && Run(s, events)
    ensures u in After(s, events).tokens <==> LastWord(s, events, u)
  {
    var n := |events|;
    if n > 0 {
      RunPrefix(s, events, n - 1);
      ListFollowsLastWord(s, events[..n - 1], u);
      var before, e := After(s, events[..n - 1]), events[n - 1];
      RunKeepsAgreement(s, events[..n - 1]);
      KnownUsers(s, events[..n - 1], u);
      assert WellFormed(before, e);
      hide Run;
      match e {
        case Remove(user, ok) => FilterMembers(Except(user), before.tokens);
        case UpdateCookie(user, expired, signed, ok) => FilterMembers(Except(user), before.tokens);
        case Restart(users) => FilterMembers(IsFlagged(before.flags), users);
        case _ =>
      }
    }
  }

  // ---------- the manager ----------

  lemma SameFlags(a: map<nat, bool>, b: map<nat, bool>)
    requires a.Keys == b.Keys && Flagged(a) == Flagged(b)
    ensures a == b
  {
    assert forall u :: u in a && a[u] <==> u in Flagged(a);
    assert forall u :: u in b && b[u] <==> u in Flagged(b);
  }

  class Manager {
    var flags: map<nat, bool>
    var tokens: seq<nat>

    ghost function View(): State
      reads this
    {
      State(flags, tokens)
    }

    /** `NewTokenManager`, with the list of all users from the database. */
    constructor (flags: map<nat, bool>, users: seq<nat>)
      requires WellFormed(State(flags, []), Restart(users))
      ensures View() == State(flags, Filter(IsFlagged(flags), users))
      ensures Agrees(View())
    {
      this.flags := flags;
      tokens := [];
      new;
      UpdateTokenList(users);
      FilterMembers(IsFlagged(flags), users);
      FilterKeepsNoRepeats(IsFlagged(flags), users);
    }

    method UpdateTokenList(users: seq<nat>)
      modifies this
      ensures View() == Next(old(View()), Restart(users))
    {
      var list: seq<nat> := [];
      for i := 0 to |users|
        invariant unchanged(this)
        invariant list == Filter(IsFlagged(flags), users[..i])
      {
        FilterSnoc(IsFlagged(flags), users, i);
        if users[i] in flags && flags[users[i]] {
          list := list + [users[i]];
        }
      }
      assert users[..|users|] == users;
      tokens := list;
    }

    method Exists(user: nat) returns (r: bool)
      ensures r <==> user in tokens
    {
      for i := 0 to |tokens|
        invariant user !in tokens[..i]
      {
        assert tokens[..i + 1] == tokens[..i] + [tokens[i]];
        if tokens[i] == user {
          return true;
        }
      }
      assert tokens[..|tokens|] == tokens;
      r := false;
    }

    /** Writes the flag of a user: fails if the user does not exist or the database does. Then the user is flagged
        exactly as asked, or nothing has changed; nobody else is affected. */
    method Update(user: nat, value: bool, ok: bool) returns (written: bool)
      modifies this`flags
      ensures written <==> ok && user in old(flags)
      ensures flags.Keys == old(flags).Keys
      ensures Flagged(flags) == if !written then old(Flagged(flags))
                                else if value then old(Flagged(flags)) + {user} else old(Flagged(flags)) - {user}
    {
      written := ok && user in flags;
      if written {
        flags := flags[user := value];
      }
    }

    method Add(user: nat, ok: bool) returns (done: bool)
      modifies this
      ensures View() == Next(old(View()), Event.Add(user, ok))
      ensures done <==> user in tokens
    {
      var known := Exists(user);
      if known {
        return true;
      }
      done := Update(user, true, ok);
      SameFlags(flags, if done then old(flags)[user := true] else old(flags));
      if done {
        tokens := tokens + [user];
      }
    }

    method Remove(user: nat, ok: bool) returns (done: bool)
      modifies this
      ensures View() == Next(old(View()), Event.Remove(user, ok))
      ensures done <==> user !in tokens
    {
      var known := Exists(user);
      if !known {
        return true;
      }
      done := Update(user, false, ok);
      SameFlags(flags, if done then old(flags)[user := false] else old(flags));
      if done {
        var rest: seq<nat> := [];
        for i := 0 to |tokens|
          invariant tokens == old(tokens) && flags == old(flags)[user := false]
          invariant rest == Filter(Except(user), tokens[..i])
        {
          FilterSnoc(Except(user), tokens, i);
          if tokens[i] != user {
            rest := rest + [tokens[i]];
          }
        }
        assert tokens[..|tokens|] == tokens;
        FilterMembers(Except(user), tokens);
        tokens := rest;
      }
    }

    /** A new token is handed out exactly if one is due, it can be made, and the user is then off the list. */
    method UpdateCookie(user: nat, expired: bool, signed: bool, ok: bool) returns (updated: bool)
      modifies this
      ensures View() == Next(old(View()), Event.UpdateCookie(user, expired, signed, ok))
      ensures updated <==> (user in old(tokens) || expired) && signed && user !in tokens
    {
      if user !in tokens && !expired {
        return false;
      }
      if !signed {
        return false;
      }
      updated := Remove(user, ok);
    }
  }
}
