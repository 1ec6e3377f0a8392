/**
 * The registry of connected sessions kept by the web server: one record per
 * session id with the repositories analysed for it and the time of its last
 * "ping". The websocket handler, the analyze endpoint and the periodic sweep
 * update it in place. Time is a whole number of seconds passed in by the
 * caller; the removal of a session's files (`cleanup_session_dir`, not part
 * of this model) is recorded in a log.
 */
module Registry {
  import opened Wrappers

  /** Seconds without a ping after which the sweep drops a session. */
  const PingTimeout: int := 120

  datatype Session = Session(repos: set<string>, lastPing: int)

  type Sessions = map<string, Session>

  /** The registry and the ids whose directories were handed to `cleanup_session_dir`, in order. */
  datatype State = State(sessions: Sessions, cleanups: seq<string>)

  datatype RegistryError = KeyError(id: string)

  /** Expiry is strict: exactly `PingTimeout` seconds of silence is still alive. */
  predicate Expired(s: Session, now: int) {
    now - s.lastPing > PingTimeout
  }

  /** Accepting a websocket: a fresh record, replacing any earlier one under the same id. */
  function Connected(sessions: Sessions, id: string, now: int): (r: Sessions)
    ensures r.Keys == sessions.Keys + {id}
    ensures r[id] == Session({}, now)
    ensures forall other :: other in sessions && other != id ==> r[other] == sessions[other]
  {
    sessions[id := Session({}, now)]
  }

  /** A "ping" refreshes the record; an unknown id raises KeyError and registers nothing. */
  function Pinged(sessions: Sessions, id: string, now: int): (r: Result<Sessions, RegistryError>)
    ensures r.Err? <==> id !in sessions
    ensures r.Err? ==> r.error == KeyError(id)
    ensures r.Ok? ==> r.value.Keys == sessions.Keys
    ensures r.Ok? ==> r.value[id].lastPing == now && r.value[id].repos == sessions[id].repos
    ensures r.Ok? ==> forall other :: other in sessions && other != id ==> r.value[other] == sessions[other]
  {
    if id in sessions then Ok(sessions[id := sessions[id].(lastPing := now)]) else Err(KeyError(id))
  }

  /** A successful analysis adds the repository to a registered session and never creates a record. */
  function WithRepo(sessions: Sessions, id: string, repo: string): (r: Sessions)
    ensures r.Keys == sessions.Keys
    ensures id in sessions ==> r[id].repos == sessions[id].repos + {repo} && r[id].lastPing == sessions[id].lastPing
    ensures forall other :: other in sessions && other != id ==> r[other] == sessions[other]
  {
    if id in sessions then sessions[id := sessions[id].(repos := sessions[id].repos + {repo})] else sessions
  }

  /** `cleanup_session`: the record is popped if present, and the directory cleanup always runs. */
  function Cleanup(st: State, id: string): (r: State)
    ensures id !in r.sessions
    ensures r.sessions.Keys == st.sessions.Keys - {id}
    ensures forall other :: other in r.sessions ==> r.sessions[other] == st.sessions[other]
    ensures r.cleanups == st.cleanups + [id]
  {
    State(st.sessions - {id}, st.cleanups + [id])
  }

  /** The sessions that survive a sweep at `now`. */
  function Live(sessions: Sessions, now: int): (r: Sessions)
    ensures forall id :: id in r <==> id in sessions && !Expired(sessions[id], now)
    ensures forall id :: id in r ==> r[id] == sessions[id]
  {
    map id | id in sessions && !Expired(sessions[id], now) :: sessions[id]
  }

  function ExpiredIds(sessions: Sessions, now: int): set<string> {
    set id | id in sessions && Expired(sessions[id], now)
  }

  /** Popping twice leaves the registry as popping once; only the directory cleanup is repeated. */
  lemma CleanupIdempotent(st: State, id: string)
    ensures Cleanup(Cleanup(st, id), id).sessions == Cleanup(st, id).sessions
    ensures Cleanup(Cleanup(st, id), id).cleanups == st.cleanups + [id, id]
  {
    assert Cleanup(st, id).sessions - {id} == Cleanup(st, id).sessions;
  }

  /** A session last pinged 120 seconds ago survives the sweep; one pinged 121 seconds ago does not. */
  lemma ExpiryBoundary(sessions: Sessions, id: string, t: int)
    requires id in sessions
    ensures sessions[id].lastPing == t - 120 ==> id in Live(sessions, t)
    ensures sessions[id].lastPing == t - 121 ==> id !in Live(sessions, t)
  {
  }

  /** The ids of the expired sessions: the list comprehension of one sweep, over the registry's items. */
  method CollectExpired(sessions: Sessions, now: int) returns (expired: seq<string>)
    ensures forall id :: id in expired <==> id in sessions && Expired(sessions[id], now)
    ensures forall i, j :: 0 <= i < j < |expired| ==> expired[i] != expired[j]
  {
    expired := [];
    var rest := sessions.Keys;
    while rest != {}
      invariant rest <= sessions.Keys
      invariant forall id :: id in expired <==> id in sessions.Keys - rest && Expired(sessions[id], now)
      invariant forall i, j :: 0 <= i < j < |expired| ==> expired[i] != expired[j]
      decreases |rest|
    {
      var id :| id in rest;
      if Expired(sessions[id], now) {
        expired := expired + [id];
      }
      rest := rest - {id};
    }
  }

  // ---------------------------------------------------------------------
  // The websocket conversation

  /** What arrives on a session's websocket: a text message at some time, or the client going away. */
  datatype Event = Text(msg: string, at: int) | Dropped

  /** What the handler answers: "pong", closing the socket, or an exception escaping it. */
  datatype Reply = Pong | Closed | Failed(error: RegistryError)

  datatype Served = Served(state: State, replies: seq<Reply>)

  /** A close event: "disconnect" from the client, or the transport reporting a disconnect. */
  predicate Closes(ev: Event) {
    ev.Dropped? || (ev.Text? && ev.msg == "disconnect")
  }

  /**
   * The receive loop of `websocket_endpoint` after the record was created:
   * it ends at the first close event (after a cleanup), at an escaping
   * KeyError, or when the inbox runs out.
   */
  function Run(st: State, id: string, inbox: seq<Event>): (r: Served)
    ensures |r.replies| <= |inbox|
    ensures forall i :: 0 <= i < |r.replies| - 1 ==> r.replies[i] == Pong
    ensures r.state.sessions.Keys <= st.sessions.Keys
    ensures |r.state.cleanups| >= |st.cleanups| && r.state.cleanups[..|st.cleanups|] == st.cleanups
    decreases |inbox|
  {
    if inbox == [] then Served(st, [])
    else match inbox[0]
      case Dropped => Served(Cleanup(st, id), [])
      case Text(msg, at) =>
        if msg == "ping" then
          match Pinged(st.sessions, id, at)
          case Err(e) => Served(st, [Failed(e)])
          case Ok(next) =>
            var rest := Run(State(next, st.cleanups), id, inbox[1..]);
            Served(rest.state, [Pong] + rest.replies)
        else if msg == "disconnect" then Served(Cleanup(st, id), [Closed])
        else Run(st, id, inbox[1..])
  }

  /** While its own record exists, a session's pings never fail. */
  lemma {:induction false} RunNeverFails(st: State, id: string, inbox: seq<Event>)
    requires id in st.sessions
    ensures forall r :: r in Run(st, id, inbox).replies ==> !r.Failed?
    decreases |inbox|
  {
    if inbox != [] && inbox[0].Text? && inbox[0].msg == "ping" {
      var next := Pinged(st.sessions, id, inbox[0].at).value;
      RunNeverFails(State(next, st.cleanups), id, inbox[1..]);
    } else if inbox != [] && inbox[0].Text? && inbox[0].msg != "disconnect" {
      RunNeverFails(st, id, inbox[1..]);
    }
  }

  /** A conversation that contains a close event ends with the record gone and the directory cleanup requested. */
  lemma {:induction false} RunClosing(st: State, id: string, inbox: seq<Event>)
    requires id in st.sessions
    requires exists i :: 0 <= i < |inbox| && Closes(inbox[i])
    ensures id !in Run(st, id, inbox).state.sessions
    ensures var c := Run(st, id, inbox).state.cleanups; |c| > 0 && c[|c| - 1] == id
    decreases |inbox|
  {
    var i :| 0 <= i < |inbox| && Closes(inbox[i]);
    if !Closes(inbox[0]) {
      assert 0 <= i - 1 < |inbox[1..]| && Closes(inbox[1..][i - 1]);
      if inbox[0].msg == "ping" {
        var next := Pinged(st.sessions, id, inbox[0].at).value;
        RunClosing(State(next, st.cleanups), id, inbox[1..]);
      } else {
        RunClosing(st, id, inbox[1..]);
      }
    }
  }

  /** The last ping in an inbox, or `t` when there is none. */
  function LastPing(inbox: seq<Event>, t: int): int
    decreases |inbox|
  {
    if inbox == [] then t
    else if inbox[0].Text? && inbox[0].msg == "ping" then LastPing(inbox[1..], inbox[0].at)
    else LastPing(inbox[1..], t)
  }

  /**
   * A conversation without a close event keeps the record: its repositories
   * are untouched, its `last_ping` is the last ping's time, and every other
   * session is unchanged.
   */
  lemma {:induction false} RunOpen(st: State, id: string, inbox: seq<Event>)
    requires id in st.sessions
    requires forall i :: 0 <= i < |inbox| ==> !Closes(inbox[i])
    ensures var end := Run(st, id, inbox).state;
            && end.sessions.Keys == st.sessions.Keys
            && end.sessions[id] == st.sessions[id].(lastPing := LastPing(inbox, st.sessions[id].lastPing))
            && (forall other :: other in st.sessions && other != id ==> end.sessions[other] == st.sessions[other])
            && end.cleanups == st.cleanups
    decreases |inbox|
  {
    if inbox != [] {
      assert forall i :: 0 <= i < |inbox[1..]| ==> inbox[1..][i] == inbox[i + 1];
      if inbox[0].msg == "ping" {
        var next := Pinged(st.sessions, id, inbox[0].at).value;
        RunOpen(State(next, st.cleanups), id, inbox[1..]);
      } else {
        RunOpen(st, id, inbox[1..]);
      }
    }
  }

  // ---------------------------------------------------------------------
  // The registry object

  /** `connected_sessions`, with the log of directory cleanups it triggers. */
  class SessionRegistry {
    var sessions: Sessions
    var dirCleanups: seq<string>

    function Current(): State
      reads this
    {
      State(sessions, dirCleanups)
    }

    constructor ()
      ensures sessions == map[] && dirCleanups == []
    {
      sessions := map[];
      dirCleanups := [];
    }

    /** The record made when a websocket is accepted. */
    method Connect(id: string, now: int)
      modifies this
      ensures sessions == Connected(old(sessions), id, now)
      ensures dirCleanups == old(dirCleanups)
    {
      sessions := sessions[id := Session({}, now)];
    }

    /** `cleanup_session`. */
    method CleanupSession(id: string)
      modifies this
      ensures Current() == Cleanup(old(Current()), id)
    {
      sessions := sessions - {id};
      dirCleanups := dirCleanups + [id];
    }

    /** One received text message; `None` when the handler keeps listening without answering. */
    method Receive(id: string, msg: string, now: int) returns (reply: Option<Reply>)
      modifies this
      ensures msg == "ping" ==> match Pinged(old(sessions), id, now)
                                 case Ok(next) => Current() == State(next, old(dirCleanups)) && reply == Some(Pong)
                                 case Err(e) => Current() == old(Current()) && reply == Some(Failed(e))
      ensures msg == "disconnect" ==> Current() == Cleanup(old(Current()), id) && reply == Some(Closed)
      ensures msg != "ping" && msg != "disconnect" ==> Current() == old(Current()) && reply == None
    {
      if msg == "ping" {
        if id !in sessions {
          return Some(Failed(KeyError(id)));
        }
        sessions := sessions[id := sessions[id].(lastPing := now)];
        reply := Some(Pong);
      } else if msg == "disconnect" {
        CleanupSession(id);
        reply := Some(Closed);
      } else {
        reply := None;
      }
    }

    /** `websocket_endpoint`: accept, then answer events until the conversation ends. */
    method Serve(id: string, connectedAt: int, inbox: seq<Event>) returns (replies: seq<Reply>)
      modifies this
      ensures var run := Run(State(Connected(old(sessions), id, connectedAt), old(dirCleanups)), id, inbox);
              Current() == run.state && replies == run.replies
    {
      Connect(id, connectedAt);
      ghost var start := Current();
      replies := [];
      var i := 0;
      while i < |inbox|
        invariant 0 <= i <= |inbox|
        invariant Run(start, id, inbox).state == Run(Current(), id, inbox[i..]).state
        invariant Run(start, id, inbox).replies == replies + Run(Current(), id, inbox[i..]).replies
        decreases |inbox| - i
      {
        var ev := inbox[i];
        ghost var st := Current();
        ghost var rest := Run(st, id, inbox[i..]);
        assert inbox[i..][1..] == inbox[i + 1..];
        if ev.Dropped? {
          CleanupSession(id);
          assert rest == Served(Current(), []);
          return;
        }
        var reply := Receive(id, ev.msg, ev.at);
        if reply.Some? && reply.value != Pong {
          replies := replies + [reply.value];
          assert rest == Served(Current(), [reply.value]);
          return;
        }
        if reply.Some? {
          replies := replies + [Pong];
        }
        i := i + 1;
      }
    }

    /** `analyze`: an empty repository name is a 400 and changes nothing. */
    method Analyze(id: string, repoName: string) returns (r: Result<string, int>)
      modifies this
      ensures r.Err? <==> repoName == ""
      ensures r.Err? ==> r.error == 400 && Current() == old(Current())
      ensures r.Ok? ==> r.value == repoName && sessions == WithRepo(old(sessions), id, repoName)
      ensures dirCleanups == old(dirCleanups)
    {
      if repoName == "" {
        return Err(400);
      }
      if id in sessions {
        sessions := sessions[id := sessions[id].(repos := sessions[id].repos + {repoName})];
      }
      r := Ok(repoName);
    }

    /** One pass of `check_sessions`: every expired session is cleaned up, the others are kept as they are. */
    method CheckSessions(now: int)
      modifies this
      ensures sessions == Live(old(sessions), now)
      ensures |dirCleanups| >= |old(dirCleanups)| && dirCleanups[..|old(dirCleanups)|] == old(dirCleanups)
      ensures forall id :: id in dirCleanups[|old(dirCleanups)|..] <==> id in ExpiredIds(old(sessions), now)
      ensures |dirCleanups| == |old(dirCleanups)| + |ExpiredIds(old(sessions), now)|
      ensures forall i, j :: |old(dirCleanups)| <= i < j < |dirCleanups| ==> dirCleanups[i] != dirCleanups[j]
    {
      var expired := CollectExpired(sessions, now);
      ghost var before := sessions;
      ghost var log := dirCleanups;
      for i := 0 to |expired|
        invariant sessions == map id | id in before && id !in expired[..i] :: before[id]
        invariant |dirCleanups| == |log| + i && dirCleanups == log + expired[..i]
      {
        CleanupSession(expired[i]);
        assert expired[..i + 1] == expired[..i] + [expired[i]];
      }
      assert expired[..|expired|] == expired;
      assert dirCleanups[|log|..] == expired;
      DistinctSize(expired, ExpiredIds(before, now));
    }
  }

  /** A list without repetitions holding exactly the members of `ids` has `|ids|` elements. */
  lemma {:induction false} DistinctSize(s: seq<string>, ids: set<string>)
    requires forall id :: id in s <==> id in ids
    requires forall i, j :: 0 <= i < j < |s| ==> s[i] != s[j]
    ensures |s| == |ids|
  {
    if s != [] {
      var rest := ids - {s[0]};
      forall id ensures id in s[1..] <==> id in rest {
        if id in s[1..] {
          var j :| 0 <= j < |s[1..]| && s[1..][j] == id;
          assert s[j + 1] == id;
        }
        if id in rest {
          var j :| 0 <= j < |s| && s[j] == id;
          assert j != 0;
          assert s[1..][j - 1] == id;
        }
      }
      DistinctSize(s[1..], rest);
    } else {
      assert forall id :: id !in ids;
      assert ids == {};
    }
  }

  /** After a sweep no session left is expired, and every live session's record is unchanged. */
  lemma SweepLeavesOnlyLive(sessions: Sessions, now: int)
    ensures forall id :: id in Live(sessions, now) ==> !Expired(Live(sessions, now)[id], now)
    ensures forall id :: id in sessions && !Expired(sessions[id], now) ==> id in Live(sessions, now) && Live(sessions, now)[id] == sessions[id]
  {
  }
}
