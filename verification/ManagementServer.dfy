/** Login window, session table and slots of the management page (src/cmnd_linux/update_gui.py). */
module ManagementServer {
  const WINDOW := 60.0
  const LIMIT := 12
  const LIFETIME := 1800.0
  const SESSIONS := 64

  // ---- Login attempts ----

  /** The attempts still inside the window; the clock is read anew for each. */
  function Kept(attempts: seq<real>, readings: seq<real>): (r: seq<real>)
    requires |readings| == |attempts|
  {
    if attempts == [] then [] else
      var rest := Kept(attempts[1..], readings[1..]);
      if readings[0] - attempts[0] < WINDOW then [attempts[0]] + rest else rest
  }

  /** A login request: the readings of the clock while it filters, and the last one. */
  datatype Request = Request(readings: seq<real>, now: real)

  /** The list of attempts, every attempt ever recorded, and the last reading of the clock. */
  datatype Window = Window(attempts: seq<real>, recorded: seq<real>, clock: real)

  predicate Sorted(s: seq<real>) { forall i, j :: 0 <= i < j < |s| ==> s[i] <= s[j] }

  /** The request can follow: one reading for each attempt, none before the clock. */
  predicate Fits(w: Window, r: Request) {
    |r.readings| == |w.attempts| && w.clock <= r.now && forall i :: 0 <= i < |r.readings| ==> w.clock <= r.readings[i] <= r.now
  }

  /** The window after a request; a refused request only drops old attempts. */
  function Login(w: Window, r: Request): Window
    requires Fits(w, r)
  {
    var kept := Kept(w.attempts, r.readings);
    if |kept| >= LIMIT then Window(kept, w.recorded, r.now)
    else Window(kept + [r.now], w.recorded + [r.now], r.now)
  }

  predicate Legal(w: Window, requests: seq<Request>)
    decreases |requests|
  {
    requests != [] ==> Fits(w, requests[0]) && Legal(Login(w, requests[0]), requests[1..])
  }

  function Play(w: Window, requests: seq<Request>): Window
    requires Legal(w, requests)
    decreases |requests|
  {
    if requests == [] then w else Play(Login(w, requests[0]), requests[1..])
  }

  /** Any recorded attempt still inside the window is listed as often as it was recorded. */
  ghost predicate Tracks(w: Window) {
    && Sorted(w.recorded) && (forall i :: 0 <= i < |w.recorded| ==> w.recorded[i] <= w.clock)
    && forall t :: t + WINDOW > w.clock ==> multiset(w.attempts)[t] == multiset(w.recorded)[t]
  }

  /** Any `LIMIT` + 1 successive recorded attempts span at least the window. */
  ghost predicate Spread(recorded: seq<real>) {
    forall i, j :: 0 <= i && j == i + LIMIT && j < |recorded| ==> recorded[j] - recorded[i] >= WINDOW
  }

  lemma {:induction false} KeptCount(attempts: seq<real>, readings: seq<real>, now: real, t: real)
    requires |attempts| == |readings| && (forall i :: 0 <= i < |readings| ==> readings[i] <= now) && t + WINDOW > now
    ensures multiset(Kept(attempts, readings))[t] == multiset(attempts)[t]
  {
    if attempts != [] {
      KeptCount(attempts[1..], readings[1..], now, t);
      assert attempts == [attempts[0]] + attempts[1..];
    }
  }

  lemma {:induction false} KeptInside(attempts: seq<real>, readings: seq<real>, clock: real)
    requires |attempts| == |readings| && forall i :: 0 <= i < |readings| ==> clock <= readings[i]
    ensures |Kept(attempts, readings)| <= |attempts|
    ensures forall t <- Kept(attempts, readings) :: t in attempts && t + WINDOW > clock
  {
    if attempts != [] {
      KeptInside(attempts[1..], readings[1..], clock);
    }
  }

  lemma LoginTracks(w: Window, r: Request)
    requires Tracks(w) && Fits(w, r)
    ensures Tracks(Login(w, r))
  {
    var next := Login(w, r);
    forall t | t + WINDOW > r.now ensures multiset(next.attempts)[t] == multiset(next.recorded)[t] {
      KeptCount(w.attempts, r.readings, r.now, t);
    }
  }

  /** A full dozen of attempts inside the window would all be listed. */
  lemma DozenListed(w: Window, r: Request, i: nat)
    requires Tracks(w) && Fits(w, r) && i + LIMIT == |w.recorded| && w.recorded[i] + WINDOW > r.now
    ensures |Kept(w.attempts, r.readings)| >= LIMIT
  {
    var kept, dozen := Kept(w.attempts, r.readings), w.recorded[i..];
    assert w.recorded == w.recorded[..i] + dozen;
    forall t ensures multiset(dozen)[t] <= multiset(kept)[t] {
      if t in dozen {
        assert t + WINDOW > r.now;
        KeptCount(w.attempts, r.readings, r.now, t);
      }
    }
    assert multiset(dozen) <= multiset(kept);
    assert |multiset(kept)| == |multiset(dozen)| + |multiset(kept) - multiset(dozen)|;
  }

  lemma LoginSpreads(w: Window, r: Request)
    requires Tracks(w) && Fits(w, r) && Spread(w.recorded)
    ensures Spread(Login(w, r).recorded)
  {
    var n := |w.recorded|;
    if n >= LIMIT && |Kept(w.attempts, r.readings)| < LIMIT {
      if w.recorded[n - LIMIT] + WINDOW > r.now { DozenListed(w, r, n - LIMIT); }
    }
  }

  /** Whatever requests come: thirteen successive attempts that were not refused span at least a minute. */
  lemma {:induction false} AttemptsSpread(w: Window, requests: seq<Request>)
    requires Legal(w, requests) && Tracks(w) && Spread(w.recorded) && |w.attempts| <= LIMIT
    ensures Tracks(Play(w, requests)) && Spread(Play(w, requests).recorded) && |Play(w, requests).attempts| <= 12
    ensures var recorded := Play(w, requests).recorded; forall i, j :: 0 <= i && j == i + 12 && j < |recorded| ==> recorded[j] - recorded[i] >= 60.0
    decreases |requests|
  {
    if requests != [] {
      LoginTracks(w, requests[0]);
      LoginSpreads(w, requests[0]);
      KeptInside(w.attempts, requests[0].readings, w.clock);
      AttemptsSpread(Login(w, requests[0]), requests[1..]);
    }
  }

  /** What is kept was younger than the window when it was looked at. */
  lemma {:induction false} KeptYoung(attempts: seq<real>, readings: seq<real>)
    requires |attempts| == |readings|
    ensures multiset(Kept(attempts, readings)) <= multiset(attempts)
    ensures forall t <- Kept(attempts, readings) ::
              exists i :: 0 <= i < |attempts| && attempts[i] == t && readings[i] - t < WINDOW
  {
    if attempts != [] {
      KeptYoung(attempts[1..], readings[1..]);
      assert attempts == [attempts[0]] + attempts[1..];
      forall t | t in Kept(attempts, readings)
        ensures exists i :: 0 <= i < |attempts| && attempts[i] == t && readings[i] - t < WINDOW
      {
        if t in Kept(attempts[1..], readings[1..]) {
          var i :| 0 <= i < |attempts| - 1 && attempts[1..][i] == t && readings[1..][i] - t < WINDOW;
          assert attempts[i + 1] == t && readings[i + 1] - t < WINDOW;
        } else {
          assert attempts[0] == t && readings[0] - t < WINDOW;
        }
      }
    }
  }

  /**
   A refusal is never without reason: a dozen attempts that were recorded, each
   less than a minute old when this request looked at it.
   */
  lemma RefusedOnlyWhenFull(w: Window, r: Request)
    requires Tracks(w) && Fits(w, r) && Login(w, r).recorded == w.recorded
    ensures var kept := Login(w, r).attempts;
            && |kept| >= 12 && multiset(kept) <= multiset(w.recorded)
            && forall t <- kept :: exists i :: 0 <= i < |w.attempts| && w.attempts[i] == t && r.readings[i] - t < 60.0
  {
    var kept := Kept(w.attempts, r.readings);
    KeptYoung(w.attempts, r.readings);
    forall t ensures multiset(kept)[t] <= multiset(w.recorded)[t] {
      if t in kept {
        var i :| 0 <= i < |w.attempts| && w.attempts[i] == t && r.readings[i] - t < WINDOW;
        assert t + WINDOW > w.clock;
      }
    }
  }

  // ---- Sessions ----

  /** A correct login: readings of the clock for each session, the token, and the reading it records. */
  datatype Entry = Entry(readings: map<string, real>, token: string, now: real)

  /** The unexpired sessions; the clock is read anew for each. */
  function Unexpired(sessions: map<string, real>, readings: map<string, real>): map<string, real>
    requires sessions.Keys <= readings.Keys
  {
    map k | k in sessions && sessions[k] > readings[k] :: sessions[k]
  }

  predicate HasRoom(sessions: map<string, real>, e: Entry)
    requires sessions.Keys <= e.readings.Keys
  {
    |Unexpired(sessions, e.readings)| < SESSIONS
  }

  /** The table after a correct login; a full table refuses. */
  function Admit(sessions: map<string, real>, e: Entry): (r: map<string, real>)
    requires sessions.Keys <= e.readings.Keys
  {
    var live := Unexpired(sessions, e.readings);
    if |live| >= SESSIONS then live else live[e.token := e.now + LIFETIME]
  }

  predicate Possible(sessions: map<string, real>, entries: seq<Entry>)
    decreases |entries|
  {
    entries != [] ==>
      sessions.Keys <= entries[0].readings.Keys && Possible(Admit(sessions, entries[0]), entries[1..])
  }

  function AdmitAll(sessions: map<string, real>, entries: seq<Entry>): map<string, real>
    requires Possible(sessions, entries)
    decreases |entries|
  {
    if entries == [] then sessions else AdmitAll(Admit(sessions, entries[0]), entries[1..])
  }

  /** A token is honoured until its session expires. */
  predicate Honoured(sessions: map<string, real>, token: string, time: real) {
    token in sessions && sessions[token] > time
  }

  lemma SubmapSize(part: map<string, real>, whole: map<string, real>)
    requires part.Keys <= whole.Keys
    ensures |part| <= |whole|
  {
    assert whole.Keys == part.Keys + (whole.Keys - part.Keys);
    assert |whole.Keys| == |part.Keys| + |whole.Keys - part.Keys|;
    assert |part| == |part.Keys| && |whole| == |whole.Keys|;
  }

  lemma UpdateSize(m: map<string, real>, k: string, v: real)
    ensures |m[k := v]| <= |m| + 1
  {
    assert m[k := v].Keys == m.Keys + {k};
    assert |m[k := v]| == |m[k := v].Keys| && |m| == |m.Keys|;
  }

  lemma AdmitSize(sessions: map<string, real>, e: Entry)
    requires sessions.Keys <= e.readings.Keys && |sessions| <= SESSIONS
    ensures |Admit(sessions, e)| <= SESSIONS
  {
    var live := Unexpired(sessions, e.readings);
    SubmapSize(live, sessions);
    UpdateSize(live, e.token, e.now + LIFETIME);
  }

  /** The table never holds more sessions than its limit. */
  lemma {:induction false} SessionsBounded(sessions: map<string, real>, entries: seq<Entry>)
    requires Possible(sessions, entries) && |sessions| <= SESSIONS
    ensures |AdmitAll(sessions, entries)| <= 64
    decreases |entries|
  {
    if entries != [] {
      AdmitSize(sessions, entries[0]);
      SessionsBounded(Admit(sessions, entries[0]), entries[1..]);
    }
  }

  lemma {:induction false} StaysAway(sessions: map<string, real>, entries: seq<Entry>, token: string)
    requires Possible(sessions, entries) && token !in sessions && forall e <- entries :: e.token != token
    ensures token !in AdmitAll(sessions, entries)
    decreases |entries|
  {
    if entries != [] {
      assert entries[0] in entries;
      StaysAway(Admit(sessions, entries[0]), entries[1..], token);
    }
  }

  lemma {:induction false} KeepsExpiry(sessions: map<string, real>, entries: seq<Entry>, token: string, time: real)
    requires Possible(sessions, entries) && token in sessions
    requires forall e <- entries :: e.token != token && forall k <- e.readings :: e.readings[k] <= time
    ensures Honoured(AdmitAll(sessions, entries), token, time) <==> time < sessions[token]
    decreases |entries|
  {
    if entries != [] {
      assert entries[0] in entries;
      var next := Admit(sessions, entries[0]);
      if token in next {
        KeepsExpiry(next, entries[1..], token, time);
      } else {
        StaysAway(next, entries[1..], token);
      }
    }
  }

  /**
   However many logins follow, an admitted token is honoured for exactly its
   lifetime: no later login drops it early or prolongs it.
   */
  lemma SessionLasts(sessions: map<string, real>, login: Entry, entries: seq<Entry>, time: real)
    requires sessions.Keys <= login.readings.Keys && HasRoom(sessions, login)
    requires Possible(Admit(sessions, login), entries)
    requires forall e <- entries :: e.token != login.token && forall k <- e.readings :: e.readings[k] <= time
    ensures Honoured(AdmitAll(Admit(sessions, login), entries), login.token, time) <==> time < login.now + 1800.0
  {
    KeepsExpiry(Admit(sessions, login), entries, login.token, time);
  }

  // ---- The page's state ----

  lemma {:induction false} KeptAppend(attempts: seq<real>, readings: seq<real>, a: real, t: real)
    requires |attempts| == |readings|
    ensures Kept(attempts + [a], readings + [t]) == Kept(attempts, readings) + if t - a < WINDOW then [a] else []
  {
    if attempts != [] {
      assert (attempts + [a])[1..] == attempts[1..] + [a] && (readings + [t])[1..] == readings[1..] + [t];
      KeptAppend(attempts[1..], readings[1..], a, t);
    }
  }

  /** The state that handlers share, each method under its lock; `clock` is the last time read. */
  class GuiState {
    var attempts: seq<real>
    var sessions: map<string, real>
    var clock: real
    ghost var recorded: seq<real>

    ghost function Logins(): Window
      reads this
    {
      Window(attempts, recorded, clock)
    }

    ghost predicate Valid()
      reads this
    {
      Tracks(Logins()) && Spread(recorded) && |attempts| <= LIMIT && |sessions| <= SESSIONS
    }

    /** One more attempt is recorded than `before`. */
    ghost predicate RecordedOne(before: seq<real>)
      reads this
    {
      recorded != [] && recorded[..|recorded| - 1] == before
    }

    constructor ()
      ensures Valid() && attempts == recorded == [] && sessions == map[] && clock == 0.0
    {
      attempts, sessions, clock, recorded := [], map[], 0.0, [];
    }

    /** The time, not before the last reading. */
    method Now() returns (t: real)
      modifies this`clock
      ensures t == clock && clock >= old(clock)
    {
      var step: real := *;
      clock := if step >= 0.0 then clock + step else clock - step;
      t := clock;
    }

    /** Drop the attempts that are out of the window and record this one, unless the list is full. */
    method RecordAttempt() returns (allowed: bool, ghost r: Request)
      requires Valid()
      modifies this
      ensures Valid() && Fits(old(Logins()), r) && Logins() == Login(old(Logins()), r)
      ensures allowed <==> recorded == old(recorded) + [clock]
      ensures !allowed ==> recorded == old(recorded)
      ensures sessions == old(sessions)
    {
      ghost var w := Logins();
      var kept: seq<real> := [];
      ghost var readings: seq<real> := [];
      for k := 0 to |attempts|
        invariant attempts == w.attempts && recorded == w.recorded && sessions == old(sessions) && clock >= w.clock
        invariant |readings| == k && kept == Kept(attempts[..k], readings)
        invariant forall i :: 0 <= i < k ==> w.clock <= readings[i] <= clock
      {
        var t := Now();
        KeptAppend(attempts[..k], readings, attempts[k], t);
        assert attempts[..k + 1] == attempts[..k] + [attempts[k]];
        readings := readings + [t];
        if t - attempts[k] < WINDOW { kept := kept + [attempts[k]]; }
      }
      assert attempts[..|attempts|] == attempts;
      attempts := kept;
      allowed := |attempts| < LIMIT;
      if allowed {
        var t := Now();
        attempts, recorded := attempts + [t], recorded + [t];
      }
      r := Request(readings, clock);
      AttemptsSpread(w, [r]);
    }

    /** Drop the sessions that have expired when they are looked at. */
    method DropExpired() returns (ghost readings: map<string, real>)
      modifies this`sessions, this`clock
      ensures clock >= old(clock)
      ensures readings.Keys == old(sessions).Keys && sessions == Unexpired(old(sessions), readings)
      ensures forall k <- readings :: old(clock) <= readings[k] <= clock
    {
      var live: map<string, real> := map[];
      readings := map[];
      var todo := sessions.Keys;
      while todo != {}
        invariant sessions == old(sessions) && clock >= old(clock) && todo <= sessions.Keys
        invariant readings.Keys == sessions.Keys - todo
        invariant forall k <- readings :: old(clock) <= readings[k] <= clock
        invariant live == map k | k in readings && sessions[k] > readings[k] :: sessions[k]
        decreases todo
      {
        var k :| k in todo;
        var t := Now();
        todo := todo - {k};
        readings := readings[k := t];
        if sessions[k] > t { live := live[k := sessions[k]]; }
      }
      sessions := live;
    }

    /** Drop the expired sessions and add this one, unless the table is full. */
    method OpenSession(token: string) returns (admitted: bool, ghost e: Entry)
      requires Valid()
      modifies this`sessions, this`clock
      ensures Valid() && clock >= old(clock)
      ensures e.token == token && e.now == clock && old(sessions).Keys <= e.readings.Keys
      ensures forall k <- e.readings :: old(clock) <= e.readings[k] <= clock
      ensures sessions == Admit(old(sessions), e) && admitted == HasRoom(old(sessions), e)
      ensures forall k :: k in sessions <==> (k in old(sessions) && old(sessions)[k] > e.readings[k]) || (k == token && admitted)
      ensures forall k :: k in sessions && !(k == token && admitted) ==> sessions[k] == old(sessions)[k]
      ensures admitted ==> sessions[token] == clock + 1800.0
    {
      ghost var readings := DropExpired();
      admitted := |sessions| < SESSIONS;
      if admitted {
        var t := Now();
        sessions := sessions[token := t + LIFETIME];
      }
      e := Entry(readings, token, clock);
      AdmitSize(old(sessions), e);
      StillValid(Window(attempts, recorded, old(clock)), clock);
    }

    /**
     A login request whose password is `correct` or not; the status of the
     reply.  A refusal for a full window records nothing, one for a full table
     of sessions has recorded the attempt.
     */
    method PostLogin(correct: bool, token: string) returns (status: int)
      requires Valid()
      modifies this
      ensures Valid()
      ensures status == 200 || status == 401 || status == 429
      ensures status == 200 ==> correct && Honoured(sessions, token, clock)
      ensures status != 200 ==> sessions.Keys <= old(sessions).Keys
      ensures status == 401 ==> !correct && sessions == old(sessions)
      ensures status == 401 || status == 200 ==> RecordedOne(old(recorded))
      ensures status == 429 && recorded == old(recorded) ==> |attempts| >= 12 && sessions == old(sessions)
      ensures status == 429 && recorded != old(recorded) ==> correct && RecordedOne(old(recorded)) && |sessions| >= 64
    {
      var allowed;
      ghost var r, e;
      allowed, r := RecordAttempt();
      if !allowed { return 429; }
      if !correct { return 401; }
      var admitted;
      admitted, e := OpenSession(token);
      status := if admitted then 200 else 429;
    }

    /** Whether a request with this token is authenticated. */
    method Authenticated(token: string) returns (yes: bool)
      requires Valid()
      modifies this`clock
      ensures Valid() && clock >= old(clock)
      ensures yes == Honoured(sessions, token, clock)
    {
      var t := Now();
      yes := token in sessions && sessions[token] > t;
      StillValid(Window(attempts, recorded, old(clock)), clock);
    }
  }

  lemma StillValid(w: Window, clock: real)
    requires Tracks(w) && clock >= w.clock
    ensures Tracks(w.(clock := clock))
  {
  }

  // ---- Slots of the server ----

  /** Free slots, connections whose handler is being started, and running handlers. */
  datatype Slots = Slots(free: nat, starting: set<nat>, running: set<nat>)

  datatype Event = Arrive(id: nat) | Start(id: nat, ok: bool) | End(id: nat)

  /** One event; a connection without a free slot is closed, a handler that cannot start gives its slot back. */
  function Next(s: Slots, e: Event): Slots {
    match e
    case Arrive(id) =>
      if id in s.starting + s.running || s.free == 0 then s
      else Slots(s.free - 1, s.starting + {id}, s.running)
    case Start(id, ok) =>
      if id !in s.starting then s
      else if ok then Slots(s.free, s.starting - {id}, s.running + {id})
      else Slots(s.free + 1, s.starting - {id}, s.running)
    case End(id) =>
      if id !in s.running then s else Slots(s.free + 1, s.starting, s.running - {id})
  }

  function AfterEvents(s: Slots, events: seq<Event>): Slots
    decreases |events|
  {
    if events == [] then s else AfterEvents(Next(s, events[0]), events[1..])
  }

  ghost predicate Balanced(s: Slots, max: nat) {
    s.starting !! s.running && s.free + |s.starting| + |s.running| == max
  }

  lemma NextBalanced(s: Slots, e: Event, max: nat)
    requires Balanced(s, max)
    ensures Balanced(Next(s, e), max)
  {
  }

  /** However connections arrive, fail to start and end: no slot is lost and none is gained. */
  lemma {:induction false} SlotsConserved(s: Slots, events: seq<Event>, max: nat)
    requires Balanced(s, max)
    ensures Balanced(AfterEvents(s, events), max)
    decreases |events|
  {
    if events != [] {
      NextBalanced(s, events[0], max);
      SlotsConserved(Next(s, events[0]), events[1..], max);
    }
  }

  /** Once every handler has ended, every slot is free again. */
  lemma AllFreeAgain(max: nat, events: seq<Event>)
    requires var s := AfterEvents(Slots(max, {}, {}), events); s.starting == s.running == {}
    ensures AfterEvents(Slots(max, {}, {}), events).free == max
  {
    SlotsConserved(Slots(max, {}, {}), events, max);
  }

  /** The server: a bounded semaphore and the handlers it has let in. */
  class Server {
    const maxClients: nat
    var slots: nat
    ghost var starting: set<nat>
    ghost var running: set<nat>

    ghost function State(): Slots
      reads this
    {
      Slots(slots, starting, running)
    }

    ghost predicate Valid()
      reads this
    {
      Balanced(State(), maxClients)
    }

    constructor (maxClients: nat)
      ensures Valid() && this.maxClients == maxClients && slots == maxClients
    {
      this.maxClients, slots, starting, running := maxClients, maxClients, {}, {};
    }

    /** A connection arrives; it is closed at once when no slot is free. */
    method Acquire(id: nat) returns (admitted: bool)
      requires Valid() && id !in starting + running
      modifies this
      ensures Valid() && State() == Next(old(State()), Arrive(id)) && admitted == (old(slots) > 0)
    {
      admitted := slots > 0;
      if admitted { slots, starting := slots - 1, starting + {id}; }
    }

    /** Start the handler's thread; on failure the slot is released. */
    method StartHandler(id: nat, ok: bool)
      requires Valid() && id in starting
      modifies this
      ensures Valid() && State() == Next(old(State()), Start(id, ok))
    {
      starting := starting - {id};
      if ok { running := running + {id}; } else { slots := slots + 1; }
    }

    /** The handler ends, however it does; a bounded semaphore is never released above its bound. */
    method EndHandler(id: nat)
      requires Valid() && id in running
      modifies this
      ensures Valid() && State() == Next(old(State()), End(id)) && old(slots) < maxClients
    {
      running, slots := running - {id}, slots + 1;
    }
  }
}
