/** What becomes of each single timer. */
module TimerFate {
  import opened RbShape
  import opened Sequences
  import opened TimerOrder
  import opened TimerSpec

  // A timer for itself, without the queue: it is pending with an expiry, or it is not.

  datatype Pending = Idle | Due(expiry: int)

  /** What happens to a timer: it fires, or one of the four operations is called for it. */
  datatype Deed = Elapsed(x: Ptr) | Calls(action: Action) {
    function Timer(): Ptr { if Elapsed? then x else action.timer }

    /** What the timer is right after it. */
    function Leaves(): Pending {
      if Elapsed? || action.Stop? then Idle else Due(action.now + action.timeout)
    }
  }

  /** What x is after all of h, when it was p before. */
  ghost function After(h: seq<Deed>, x: Ptr, p: Pending): Pending {
    if h == [] then p else After(h[1..], x, if h[0].Timer() == x then h[0].Leaves() else p)
  }

  /** The last thing that happened to a timer decides, and nothing that happened to others matters. */
  lemma {:induction false} LastDecides(h: seq<Deed>, x: Ptr, p: Pending, i: nat)
    requires i < |h| && h[i].Timer() == x && forall j :: i < j < |h| ==> h[j].Timer() != x
    ensures After(h, x, p) == h[i].Leaves()
    decreases |h|
  {
    if i == 0 {
      NothingHappens(h[1..], x, h[0].Leaves());
    } else {
      LastDecides(h[1..], x, if h[0].Timer() == x then h[0].Leaves() else p, i - 1);
    }
  }

  lemma {:induction false} NothingHappens(h: seq<Deed>, x: Ptr, p: Pending)
    requires forall j :: 0 <= j < |h| ==> h[j].Timer() != x
    ensures After(h, x, p) == p
    decreases |h|
  {
    if h != [] { NothingHappens(h[1..], x, p); }
  }

  lemma {:induction false} AfterBoth(h: seq<Deed>, k: seq<Deed>, x: Ptr, p: Pending)
    ensures After(h + k, x, p) == After(k, x, After(h, x, p))
    decreases |h|
  {
    if h == [] {
      assert h + k == k;
    } else {
      assert (h + k)[1..] == h[1..] + k;
      AfterBoth(h[1..], k, x, if h[0].Timer() == x then h[0].Leaves() else p);
    }
  }

  // ---------- What happens in a pass and in a run ----------

  ghost function Called(l: seq<Action>): (h: seq<Deed>)
    ensures |h| == |l| && forall i :: 0 <= i < |h| ==> h[i] == Calls(l[i])
  {
    seq(|l|, i requires 0 <= i < |l| => Calls(l[i]))
  }

  /** Each timer that fired, and behind it the calls of its callback. */
  ghost function History(log: seq<Firing>, script: seq<Round>): seq<Deed>
    requires |log| <= |script|
  {
    if log == [] then []
    else [Elapsed(log[0].timer)] + Called(script[0].callback) + History(log[1..], script[1..])
  }

  /** The timer as it stands in the state: pending if it is in the queue. */
  ghost function Standing(s: Timers, x: Ptr): Pending {
    if x in s.queue then Due(At(s.expires, x)) else Idle
  }

  lemma {:induction false} StoppedFate(s: Timers, y: Ptr, x: Ptr)
    requires Consistent(s) && y in s.state
    ensures Standing(Stopped(s, y), x) == if x == y then Idle else Standing(s, x)
  {
    hide Consistent, Stopped, At;
    StoppedKeeps(s, y);
  }

  lemma {:induction false} StartedFate(s: Timers, y: Ptr, expiry: int, x: Ptr)
    requires Consistent(s) && y in s.state
    ensures Standing(Started(s, y, expiry), x) == if x == y then Due(expiry) else Standing(s, x)
  {
    hide Consistent, Started, At;
    StartedKeeps(s, y, expiry);
  }

  lemma {:induction false} CreatedFate(s: Timers, y: Ptr, x: Ptr)
    requires Consistent(s) && y != NULL && y !in s.state
    ensures Standing(Created(s, y), x) == Standing(s, x)
  {
    hide Consistent, Created, At;
    CreatedKeeps(s, y);
  }

  lemma {:induction false} ApplyFate(s: Timers, a: Action, x: Ptr)
    requires Consistent(s) && Enabled(s, a)
    ensures Standing(Apply(s, a), x) == if a.timer == x then Calls(a).Leaves() else Standing(s, x)
  {
    hide Consistent, Stopped, Started, Created, Standing;
    match a
    case Stop(y) => StoppedFate(s, y, x);
    case Start(y, now, timeout) => StartedFate(s, y, now + timeout, x);
    case Update(y, now, timeout) =>
      StoppedKeeps(s, y);
      StoppedFate(s, y, x);
      StartedFate(Stopped(s, y), y, now + timeout, x);
    case Add(y, now, timeout) =>
      CreatedKeeps(s, y);
      CreatedFate(s, y, x);
      StartedFate(Created(s, y), y, now + timeout, x);
  }

  lemma {:induction false} CallsFate(s: Timers, l: seq<Action>, x: Ptr)
    requires Consistent(s) && Legal(s, l)
    ensures Standing(ApplyAll(s, l), x) == After(Called(l), x, Standing(s, x))
    decreases |l|
  {
    hide Consistent, Apply, Standing;
    if l != [] {
      ApplyKeeps(s, l[0]);
      ApplyFate(s, l[0], x);
      CallsFate(Apply(s, l[0]), l[1..], x);
      assert Called(l)[1..] == Called(l[1..]);
    }
  }

  lemma {:induction false} PlayedRounds(s: Timers, script: seq<Round>)
    requires LegalScript(s, script)
    ensures var p := Process(s, script); |p.log| + |p.rest| == |script| && p.rest == script[|p.log|..]
    decreases |script|
  {
    if Fires(s, script) { PlayedRounds(FireFirst(s, script), script[1..]); }
  }

  /** What becomes of any timer in one pass of process_timer, whatever the callbacks do. */
  lemma {:induction false} PassFate(s: Timers, script: seq<Round>, x: Ptr)
    requires Consistent(s) && LegalScript(s, script)
    ensures var p := Process(s, script);
            |p.log| <= |script| && Standing(p.after, x) == After(History(p.log, script), x, Standing(s, x))
    decreases |script|
  {
    PlayedRounds(s, script);
    if Fires(s, script) {
      RoundFate(s, script, x);
      FireFirstKeeps(s, script);
      PlayedRounds(FireFirst(s, script), script[1..]);
      PassFate(FireFirst(s, script), script[1..], x);
      var q := Process(FireFirst(s, script), script[1..]);
      var log := Process(s, script).log;
      assert log[0].timer == s.queue[0] && log[1..] == q.log;
      var round := [Elapsed(s.queue[0])] + Called(script[0].callback);
      AfterBoth(round, History(q.log, script[1..]), x, Standing(s, x));
    }
  }

  lemma {:induction false} RoundFate(s: Timers, script: seq<Round>, x: Ptr)
    requires Consistent(s) && Fires(s, script) && LegalScript(s, script)
    ensures Standing(FireFirst(s, script), x)
         == After([Elapsed(s.queue[0])] + Called(script[0].callback), x, Standing(s, x))
  {
    hide Consistent, Stopped, Standing;
    var y, l := s.queue[0], script[0].callback;
    StoppedKeeps(s, y);
    StoppedFate(s, y, x);
    CallsFate(Stopped(s, y), l, x);
    AfterBoth([Elapsed(y)], Called(l), x, Standing(s, x));
    After1(Elapsed(y), x, Standing(s, x));
  }

  lemma {:induction false} After1(d: Deed, x: Ptr, p: Pending)
    ensures After([d], x, p) == if d.Timer() == x then d.Leaves() else p
  {
    assert [d][1..] == [];
  }

  /** The history of a whole run. */
  ghost function RunHistory(s: Timers, run: seq<Event>): seq<Deed>
    requires Consistent(s) && LegalRun(s, run)
    decreases |run|
  {
    if run == [] then []
    else
      HappenKeeps(s, run[0]);
      EventHistory(s, run[0]) + RunHistory(Happen(s, run[0]).after, run[1..])
  }

  ghost function EventHistory(s: Timers, e: Event): seq<Deed>
    requires Consistent(s) && LegalEvent(s, e)
  {
    match e
    case Call(a) => [Calls(a)]
    case Poll(script) =>
      PassFate(s, script, NULL);
      History(Process(s, script).log, script)
  }

  lemma {:induction false} HappenKeeps(s: Timers, e: Event)
    requires Consistent(s) && LegalEvent(s, e)
    ensures Consistent(Happen(s, e).after)
  {
    match e
    case Call(a) => ApplyKeeps(s, a);
    case Poll(script) => ProcessKeeps(s, script);
  }

  lemma {:induction false} EventFate(s: Timers, e: Event, x: Ptr)
    requires Consistent(s) && LegalEvent(s, e)
    ensures Standing(Happen(s, e).after, x) == After(EventHistory(s, e), x, Standing(s, x))
  {
    hide Consistent, Standing, Apply, LegalScript, Process;
    match e
    case Call(a) =>
      ApplyFate(s, a, x);
      After1(Calls(a), x, Standing(s, x));
    case Poll(script) => PassFate(s, script, x);
  }

  /** What becomes of any timer over every run. */
  lemma {:induction false} RunFate(s: Timers, run: seq<Event>, x: Ptr)
    requires Consistent(s) && LegalRun(s, run)
    ensures Standing(Run(s, run).after, x) == After(RunHistory(s, run), x, Standing(s, x))
    decreases |run|
  {
    hide Consistent, Standing, Happen, EventHistory, LegalEvent;
    if run != [] {
      var t := Happen(s, run[0]).after;
      HappenKeeps(s, run[0]);
      EventFate(s, run[0], x);
      RunFate(t, run[1..], x);
      AfterBoth(EventHistory(s, run[0]), RunHistory(t, run[1..]), x, Standing(s, x));
    }
  }

  /**
   After one pass: a timer that was started, updated or added last is queued with the clock reading of that call plus
   its timeout; one that fired or was stopped last is not; and one to which nothing happened is as it was.
   */
  lemma {:induction false} LastDeed(s: Timers, script: seq<Round>, x: Ptr, i: int)
    requires Consistent(s) && LegalScript(s, script) && |Process(s, script).log| <= |script|
    requires var h := History(Process(s, script).log, script);
             -1 <= i < |h| && (i >= 0 ==> h[i].Timer() == x) && forall j :: i < j < |h| ==> h[j].Timer() != x
    ensures var q, h := Process(s, script).after, History(Process(s, script).log, script);
            if i < 0 then
              (x in q.queue <==> x in s.queue) && (x in s.queue ==> At(q.expires, x) == At(s.expires, x))
            else if h[i].Elapsed? || h[i].action.Stop? then x !in q.queue
            else x in q.queue && At(q.expires, x) == h[i].action.now + h[i].action.timeout
  {
    hide Consistent, At, History, Process;
    PassFate(s, script, x);
    var h := History(Process(s, script).log, script);
    if i < 0 { NothingHappens(h, x, Standing(s, x)); } else { LastDecides(h, x, Standing(s, x), i); }
  }

  /** A timer that starts itself again from its callback is queued again, one timeout later. */
  lemma {:induction false} PeriodicStays(s: Timers, script: seq<Round>, x: Ptr, now: int, timeout: int)
    requires Consistent(s) && Fires(s, script) && LegalScript(s, script) && |script| == 1
    requires s.queue[0] == x && script[0].callback == [Start(x, now, timeout)]
    ensures var p := Process(s, script);
            p.log == [Firing(x, At(s.expires, x), script[0].now)]
            && x in p.after.queue && At(p.after.expires, x) == now + timeout
  {
    hide Consistent;
    PassFate(s, script, x);
    var h := History(Process(s, script).log, script);
    assert h == [Elapsed(x), Calls(Start(x, now, timeout))];
    LastDecides(h, x, Standing(s, x), 1);
  }
}
