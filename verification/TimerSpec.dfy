/** Timers as a state machine. */
module TimerSpec {
  import opened RbShape
  import opened Sequences
  import opened TimerOrder

  // The state is the queue, the expiries and the state fields; its steps are the four timer operations
  // and process_timer, given the clock readings it makes and what the callbacks it invokes do.

  const INACTIVE: nat := 0
  const ENQUEUED: nat := 1

  datatype Timers = Timers(queue: seq<Ptr>, expires: Expiry, state: map<Ptr, nat>)

  /** A call of stop_timer, start_timer, update_timer or add_timer; now is the clock reading it makes. */
  datatype Action =
    | Stop(timer: Ptr)
    | Start(timer: Ptr, now: int, timeout: int)
    | Update(timer: Ptr, now: int, timeout: int)
    | Add(timer: Ptr, now: int, timeout: int)

  /** One turn of the loop of process_timer: its clock reading, and the calls that the callback makes. */
  datatype Round = Round(now: int, callback: seq<Action>)

  datatype Firing = Firing(timer: Ptr, expiry: int, now: int)

  /** What happens in a program: a call from outside, or a call of process_timer. */
  datatype Event = Call(action: Action) | Poll(script: seq<Round>)

  /** Operations apply to timers that exist; a new timer has an address of its own. */
  ghost predicate Enabled(s: Timers, a: Action) {
    if a.Add? then a.timer != NULL && a.timer !in s.state && a.timer !in s.expires
    else a.timer in s.state && a.timer in s.expires
  }

  /** What both stop_timer and start_timer begin with: a timer that is ENQUEUED leaves the queue. */
  ghost function Dequeued(s: Timers, x: Ptr): Timers
    requires x in s.state
  {
    s.(queue := if s.state[x] == ENQUEUED then Without(s.queue, x) else s.queue)
  }

  ghost function Entered(s: Timers, x: Ptr, expiry: int): Timers {
    var e := s.expires[x := expiry];
    Timers(Enqueue(e, s.queue, x), e, s.state[x := ENQUEUED])
  }

  ghost function Stopped(s: Timers, x: Ptr): Timers
    requires x in s.state
  {
    Dequeued(s, x).(state := s.state[x := INACTIVE])
  }

  ghost function Started(s: Timers, x: Ptr, expiry: int): Timers
    requires x in s.state
  {
    Entered(Dequeued(s, x), x, expiry)
  }

  ghost function Created(s: Timers, x: Ptr): Timers {
    s.(expires := s.expires[x := 0], state := s.state[x := INACTIVE])
  }

  ghost function Apply(s: Timers, a: Action): Timers
    requires Enabled(s, a)
  {
    match a
    case Stop(x) => Stopped(s, x)
    case Start(x, now, timeout) => Started(s, x, now + timeout)
    case Update(x, now, timeout) => Started(Stopped(s, x), x, now + timeout)
    case Add(x, now, timeout) => Started(Created(s, x), x, now + timeout)
  }

  ghost predicate Legal(s: Timers, l: seq<Action>)
    decreases |l|
  {
    l == [] || (Enabled(s, l[0]) && Legal(Apply(s, l[0]), l[1..]))
  }

  ghost function ApplyAll(s: Timers, l: seq<Action>): Timers
    requires Legal(s, l)
    decreases |l|
  {
    if l == [] then s else ApplyAll(Apply(s, l[0]), l[1..])
  }

  /** process_timer fires the first timer of the queue if it is due. */
  ghost predicate Fires(s: Timers, script: seq<Round>) {
    s.queue != [] && script != [] && At(s.expires, s.queue[0]) <= script[0].now
  }

  ghost predicate LegalScript(s: Timers, script: seq<Round>)
    decreases |script|
  {
    Fires(s, script) ==>
      && s.queue[0] in s.state && s.queue[0] in s.expires
      && Legal(Stopped(s, s.queue[0]), script[0].callback)
      && LegalScript(ApplyAll(Stopped(s, s.queue[0]), script[0].callback), script[1..])
  }

  ghost function FireFirst(s: Timers, script: seq<Round>): Timers
    requires Fires(s, script) && LegalScript(s, script)
  {
    ApplyAll(Stopped(s, s.queue[0]), script[0].callback)
  }

  /** The timers afterwards, what fired, and the rounds that were not played. */
  datatype Pass = Pass(after: Timers, log: seq<Firing>, rest: seq<Round>)

  ghost function Process(s: Timers, script: seq<Round>): Pass
    requires LegalScript(s, script)
    decreases |script|
  {
    if Fires(s, script) then
      var p := Process(FireFirst(s, script), script[1..]);
      p.(log := [Firing(s.queue[0], At(s.expires, s.queue[0]), script[0].now)] + p.log)
    else Pass(s, [], script)
  }

  /** process_timer has returned, rather than run to the end of what the script describes. */
  ghost predicate Returned(p: Pass) {
    p.after.queue == [] || p.rest != []
  }

  ghost predicate LegalEvent(s: Timers, e: Event) {
    match e
    case Call(a) => Enabled(s, a)
    case Poll(script) => LegalScript(s, script)
  }

  ghost function Happen(s: Timers, e: Event): Pass
    requires LegalEvent(s, e)
  {
    match e
    case Call(a) => Pass(Apply(s, a), [], [])
    case Poll(script) => Process(s, script)
  }

  ghost predicate LegalRun(s: Timers, run: seq<Event>)
    decreases |run|
  {
    run == [] || (LegalEvent(s, run[0]) && LegalRun(Happen(s, run[0]).after, run[1..]))
  }

  /** The timers at the end of a run, and everything that fired in it. */
  ghost function Run(s: Timers, run: seq<Event>): Pass
    requires LegalRun(s, run)
    decreases |run|
  {
    if run == [] then Pass(s, [], [])
    else
      var p := Happen(s, run[0]);
      var q := Run(p.after, run[1..]);
      q.(log := p.log + q.log)
  }

  // ---------- What every run keeps ----------

  /** A timer is ENQUEUED if and only if it is in the queue; the queue has no repetitions and is in order. */
  ghost predicate Consistent(s: Timers) {
    && Unique(s.queue) && Ordered(s.expires, s.queue)
    && NULL !in s.state && s.state.Keys == s.expires.Keys
    && (forall x :: x in s.queue <==> x in s.state && s.state[x] == ENQUEUED)
    && (forall x :: x in s.state ==> s.state[x] == INACTIVE || s.state[x] == ENQUEUED)
  }

  lemma {:induction false} WithoutOrdered(exp: Expiry, s: seq<Ptr>, x: Ptr)
    requires Ordered(exp, s)
    ensures Ordered(exp, Without(s, x))
  {
    if s != [] {
      TailOrdered(exp, s);
      WithoutOrdered(exp, s[1..], x);
      WithoutIn(s[1..], x);
      var w := Without(s[1..], x);
      assert forall i :: 0 <= i < |w| ==> w[i] in w;
    }
  }

  lemma {:induction false} EnqueueKeeps(exp: Expiry, s: seq<Ptr>, x: Ptr)
    ensures forall y :: y in Enqueue(exp, s, x) <==> y in s || y == x
    ensures Unique(s) && x !in s ==> Unique(Enqueue(exp, s, x))
  {
    if s != [] {
      EnqueueKeeps(exp, s[1..], x);
      assert s == [s[0]] + s[1..];
      assert forall i :: 0 <= i < |s[1..]| ==> s[1..][i] == s[i + 1];
      var e := Enqueue(exp, s[1..], x);
      assert forall i :: 0 <= i < |e| ==> e[i] in e;
    }
  }

  /** Rewriting the expiry of a node outside the queue keeps the order. */
  lemma {:induction false} OrderedAgree(exp: Expiry, exp': Expiry, s: seq<Ptr>)
    requires Ordered(exp, s) && forall y :: y in s ==> At(exp, y) == At(exp', y)
    ensures Ordered(exp', s)
  {
    assert forall i :: 0 <= i < |s| ==> s[i] in s;
  }

  lemma {:induction false} StoppedKeeps(s: Timers, x: Ptr)
    requires Consistent(s) && x in s.state
    ensures Consistent(Stopped(s, x)) && x !in Stopped(s, x).queue && x in Stopped(s, x).state
    ensures Stopped(s, x).expires == s.expires && Stopped(s, x).state.Keys == s.state.Keys
    ensures forall y :: y in Stopped(s, x).queue <==> y in s.queue && y != x
  {
    WithoutUnique(s.queue, x);
    WithoutOrdered(s.expires, s.queue, x);
  }

  lemma {:induction false} StartedKeeps(s: Timers, x: Ptr, expiry: int)
    requires Consistent(s) && x in s.state
    ensures Consistent(Started(s, x, expiry)) && Started(s, x, expiry).state.Keys == s.state.Keys
    ensures forall y :: y in Started(s, x, expiry).queue <==> y == x || y in s.queue
    ensures forall y :: y in s.queue && y != x ==> At(Started(s, x, expiry).expires, y) == At(s.expires, y)
    ensures At(Started(s, x, expiry).expires, x) == expiry
  {
    WithoutUnique(s.queue, x);
    WithoutOrdered(s.expires, s.queue, x);
    var q := if s.state[x] == ENQUEUED then Without(s.queue, x) else s.queue;
    var e := s.expires[x := expiry];
    OrderedAgree(s.expires, e, q);
    EnqueueKeeps(e, q, x);
    EnqueueOrdered(e, q, x);
  }

  lemma {:induction false} ApplyKeeps(s: Timers, a: Action)
    requires Consistent(s) && Enabled(s, a)
    ensures Consistent(Apply(s, a))
  {
    hide Consistent, Stopped, Started, Created;
    match a
    case Stop(x) => StoppedKeeps(s, x);
    case Start(x, now, timeout) => StartedKeeps(s, x, now + timeout);
    case Update(x, now, timeout) =>
      StoppedKeeps(s, x);
      StartedKeeps(Stopped(s, x), x, now + timeout);
    case Add(x, now, timeout) =>
      CreatedKeeps(s, x);
      StartedKeeps(Created(s, x), x, now + timeout);
  }

  lemma {:induction false} CreatedKeeps(s: Timers, x: Ptr)
    requires Consistent(s) && x != NULL && x !in s.state
    ensures Consistent(Created(s, x)) && x in Created(s, x).state && Created(s, x).queue == s.queue
    ensures forall y :: y in s.queue ==> At(Created(s, x).expires, y) == At(s.expires, y)
  {
    OrderedAgree(s.expires, s.expires[x := 0], s.queue);
  }

  lemma {:induction false} ApplyAllKeeps(s: Timers, l: seq<Action>)
    requires Consistent(s) && Legal(s, l)
    ensures Consistent(ApplyAll(s, l))
    decreases |l|
  {
    if l != [] {
      ApplyKeeps(s, l[0]);
      ApplyAllKeeps(Apply(s, l[0]), l[1..]);
    }
  }

  /** One turn of process_timer keeps the timers consistent, whatever the callback does. */
  lemma {:induction false} FireFirstKeeps(s: Timers, script: seq<Round>)
    requires Consistent(s) && Fires(s, script) && LegalScript(s, script)
    ensures Consistent(FireFirst(s, script))
  {
    StoppedKeeps(s, s.queue[0]);
    ApplyAllKeeps(Stopped(s, s.queue[0]), script[0].callback);
  }

  /** No timer fires before its expiry. */
  ghost predicate OnTime(log: seq<Firing>) {
    forall i :: 0 <= i < |log| ==> log[i].expiry <= log[i].now
  }

  lemma {:induction false} ProcessKeeps(s: Timers, script: seq<Round>)
    requires Consistent(s) && LegalScript(s, script)
    ensures Consistent(Process(s, script).after) && OnTime(Process(s, script).log)
    decreases |script|
  {
    if Fires(s, script) {
      FireFirstKeeps(s, script);
      ProcessKeeps(FireFirst(s, script), script[1..]);
    }
  }

  /** Over every run, a timer is ENQUEUED if and only if it is in the queue, once, and nothing fires early. */
  lemma {:induction false} RunKeeps(s: Timers, run: seq<Event>)
    requires Consistent(s) && LegalRun(s, run)
    ensures Consistent(Run(s, run).after) && OnTime(Run(s, run).log)
    decreases |run|
  {
    if run != [] {
      match run[0] {
        case Call(a) => ApplyKeeps(s, a);
        case Poll(script) => ProcessKeeps(s, script);
      }
      RunKeeps(Happen(s, run[0]).after, run[1..]);
    }
  }

  /** When process_timer returns, no timer in the queue is due at the last clock reading it made. */
  lemma {:induction false} ReturnedNoneDue(s: Timers, script: seq<Round>)
    requires Consistent(s) && LegalScript(s, script)
    ensures var p := Process(s, script);
            Returned(p) && p.rest != [] ==> forall x :: x in p.after.queue ==> p.rest[0].now < At(p.after.expires, x)
    decreases |script|
  {
    if Fires(s, script) {
      FireFirstKeeps(s, script);
      ReturnedNoneDue(FireFirst(s, script), script[1..]);
    } else if s.queue != [] && script != [] {
      forall x | x in s.queue ensures script[0].now < At(s.expires, x) {
        var i :| 0 <= i < |s.queue| && s.queue[i] == x;
        assert At(s.expires, s.queue[0]) <= At(s.expires, s.queue[i]);
      }
    }
  }

  lemma {:induction false} IdleStep(s: Timers, script: seq<Round>)
    requires Consistent(s) && Fires(s, script) && LegalScript(s, script) && script[0].callback == []
    ensures FireFirst(s, script).queue == s.queue[1..] && FireFirst(s, script).expires == s.expires
    ensures Consistent(FireFirst(s, script)) && LegalScript(FireFirst(s, script), script[1..])
  {
    FireFirstKeeps(s, script);
    WithoutHead(s.queue);
  }

  /** With callbacks that do nothing, what fires and then what stays is what was queued, in order. */
  lemma {:induction false} IdleConserves(s: Timers, script: seq<Round>)
    requires Consistent(s) && LegalScript(s, script)
    requires forall i :: 0 <= i < |script| ==> script[i].callback == []
    ensures s.queue == Fired(Process(s, script).log) + Process(s, script).after.queue
    ensures Process(s, script).after.expires == s.expires
    decreases |script|
  {
    hide Consistent, FireFirst, Stopped, Legal, ApplyAll;
    if Fires(s, script) {
      IdleStep(s, script);
      IdleConserves(FireFirst(s, script), script[1..]);
      FiresUnfold(s, script);
      hide Fired, Process, Fires, LegalScript;
      var p := Process(FireFirst(s, script), script[1..]);
      Assoc([s.queue[0]], Fired(p.log), p.after.queue);
      HeadTail(s.queue);
    }
  }

  lemma {:induction false} HeadTail(s: seq<Ptr>)
    requires s != []
    ensures s == [s[0]] + s[1..]
  {
  }

  lemma {:induction false} FiresUnfold(s: Timers, script: seq<Round>)
    requires Fires(s, script) && LegalScript(s, script)
    ensures var p := Process(FireFirst(s, script), script[1..]);
            Process(s, script).after == p.after && Fired(Process(s, script).log) == [s.queue[0]] + Fired(p.log)
  {
    FiredCons(Firing(s.queue[0], At(s.expires, s.queue[0]), script[0].now),
        Process(FireFirst(s, script), script[1..]).log);
  }

  lemma {:induction false} FiredCons(f: Firing, log: seq<Firing>)
    ensures Fired([f] + log) == [f.timer] + Fired(log)
  {
    assert ([f] + log)[1..] == log;
  }

  lemma {:induction false} WithoutHead(s: seq<Ptr>)
    requires Unique(s) && s != []
    ensures Without(s, s[0]) == s[1..]
  {
    WithoutAbsent(s[1..], s[0]);
  }

  ghost function Fired(log: seq<Firing>): seq<Ptr> {
    if log == [] then [] else [log[0].timer] + Fired(log[1..])
  }

  ghost predicate Untouched(l: seq<Action>, x: Ptr) {
    forall i :: 0 <= i < |l| ==> l[i].timer != x
  }

  lemma {:induction false} ApplyUntouched(s: Timers, a: Action, x: Ptr)
    requires Consistent(s) && Enabled(s, a) && x in s.queue && a.timer != x
    ensures x in Apply(s, a).queue && At(Apply(s, a).expires, x) == At(s.expires, x)
  {
    var y := a.timer;
    hide Consistent, Stopped, Started, Created, At;
    if a.Add? { CreatedKeeps(s, y); } else { StoppedKeeps(s, y); }
    match a
    case Stop(_) =>
    case Start(_, now, timeout) => StartedKeeps(s, y, now + timeout);
    case Update(_, now, timeout) => StartedKeeps(Stopped(s, y), y, now + timeout);
    case Add(_, now, timeout) => StartedKeeps(Created(s, y), y, now + timeout);
  }

  lemma {:induction false} ApplyAllUntouched(s: Timers, l: seq<Action>, x: Ptr)
    requires Consistent(s) && Legal(s, l) && x in s.queue && Untouched(l, x)
    ensures x in ApplyAll(s, l).queue && At(ApplyAll(s, l).expires, x) == At(s.expires, x)
    decreases |l|
  {
    if l != [] {
      ApplyKeeps(s, l[0]);
      ApplyUntouched(s, l[0], x);
      ApplyAllUntouched(Apply(s, l[0]), l[1..], x);
    }
  }

  lemma {:induction false} FireFirstUntouched(s: Timers, script: seq<Round>, x: Ptr)
    requires Consistent(s) && Fires(s, script) && LegalScript(s, script) && x in s.queue && x != s.queue[0]
    requires Untouched(script[0].callback, x)
    ensures x in FireFirst(s, script).queue && At(FireFirst(s, script).expires, x) == At(s.expires, x)
  {
    StoppedKeeps(s, s.queue[0]);
    WithoutUnique(s.queue, s.queue[0]);
    ApplyAllUntouched(Stopped(s, s.queue[0]), script[0].callback, x);
  }

  /** A timer that no callback touches either fires or stays queued as it was. */
  lemma {:induction false} FiresOrStays(s: Timers, script: seq<Round>, x: Ptr)
    requires Consistent(s) && LegalScript(s, script) && x in s.queue
    requires forall i :: 0 <= i < |script| ==> Untouched(script[i].callback, x)
    ensures var p := Process(s, script);
            x in Fired(p.log) || (x in p.after.queue && At(p.after.expires, x) == At(s.expires, x))
    decreases |script|
  {
    if Fires(s, script) {
      FireFirstKeeps(s, script);
      FiresUnfold(s, script);
      if x != s.queue[0] {
        FireFirstUntouched(s, script, x);
        hide Consistent, FireFirst, Stopped, Untouched, At;
        FiresOrStays(FireFirst(s, script), script[1..], x);
      }
    }
  }

  /** So every timer that is due at the last clock reading has fired, unless a callback touched it. */
  lemma {:induction false} DueFires(s: Timers, script: seq<Round>, x: Ptr)
    requires Consistent(s) && LegalScript(s, script) && x in s.queue
    requires forall i :: 0 <= i < |script| ==> Untouched(script[i].callback, x)
    requires var p := Process(s, script);
             Returned(p) && (p.rest != [] ==> At(s.expires, x) <= p.rest[0].now)
    ensures x in Fired(Process(s, script).log)
  {
    FiresOrStays(s, script, x);
    ReturnedNoneDue(s, script);
  }

  // ---------- Order of firing ----------

  /** The clock never runs backwards from t on, and no timeout is negative. */
  ghost predicate Steady(l: seq<Action>, t: int) {
    l == [] || if l[0].Stop? then Steady(l[1..], t) else t <= l[0].now && 0 <= l[0].timeout && Steady(l[1..], l[0].now)
  }

  ghost function Latest(l: seq<Action>, t: int): int {
    if l == [] then t else Latest(l[1..], if l[0].Stop? then t else l[0].now)
  }

  ghost predicate SteadyScript(script: seq<Round>, t: int) {
    script == [] ||
      (t <= script[0].now && Steady(script[0].callback, script[0].now)
       && SteadyScript(script[1..], Latest(script[0].callback, script[0].now)))
  }

  ghost function LatestOf(script: seq<Round>, t: int): int {
    if script == [] then t else LatestOf(script[1..], Latest(script[0].callback, script[0].now))
  }

  ghost predicate SteadyRun(run: seq<Event>, t: int) {
    run == [] ||
      match run[0]
      case Call(a) => Steady([a], t) && SteadyRun(run[1..], Latest([a], t))
      case Poll(script) => SteadyScript(script, t) && SteadyRun(run[1..], LatestOf(script, t))
  }

  /** Nothing in the queue expires before e. */
  ghost predicate Floor(s: Timers, e: int) {
    forall x :: x in s.queue ==> e <= At(s.expires, x)
  }

  ghost predicate Ascending(log: seq<Firing>, e: int) {
    && (forall i :: 0 <= i < |log| ==> e <= log[i].expiry)
    && (forall i, j :: 0 <= i < j < |log| ==> log[i].expiry <= log[j].expiry)
  }

  /** The expiry that fired last, or e if nothing did. */
  ghost function LastExpiry(log: seq<Firing>, e: int): int {
    if log == [] then e else log[|log| - 1].expiry
  }

  lemma {:induction false} ApplyFloor(s: Timers, a: Action, e: int, t: int)
    requires Consistent(s) && Enabled(s, a) && Floor(s, e) && e <= t && Steady([a], t)
    ensures Floor(Apply(s, a), e) && t <= Latest([a], t)
  {
    hide Consistent, Stopped, Started, Created, At;
    match a
    case Stop(x) => StoppedKeeps(s, x);
    case Start(x, now, timeout) => StartedKeeps(s, x, now + timeout);
    case Update(x, now, timeout) =>
      StoppedKeeps(s, x);
      StartedKeeps(Stopped(s, x), x, now + timeout);
    case Add(x, now, timeout) =>
      CreatedKeeps(s, x);
      StartedKeeps(Created(s, x), x, now + timeout);
  }

  lemma {:induction false} ApplyAllFloor(s: Timers, l: seq<Action>, e: int, t: int)
    requires Consistent(s) && Legal(s, l) && Floor(s, e) && e <= t && Steady(l, t)
    ensures Floor(ApplyAll(s, l), e) && t <= Latest(l, t)
    decreases |l|
  {
    if l != [] {
      assert Steady([l[0]], t);
      ApplyKeeps(s, l[0]);
      ApplyFloor(s, l[0], e, t);
      ApplyAllFloor(Apply(s, l[0]), l[1..], e, Latest([l[0]], t));
    }
  }

  lemma {:induction false} FireFirstFloor(s: Timers, script: seq<Round>, t: int)
    requires Consistent(s) && Fires(s, script) && LegalScript(s, script) && SteadyScript(script, t)
    ensures Floor(s, At(s.expires, s.queue[0])) && Floor(FireFirst(s, script), At(s.expires, s.queue[0]))
    ensures At(s.expires, s.queue[0]) <= Latest(script[0].callback, script[0].now)
  {
    StoppedKeeps(s, s.queue[0]);
    HeadFloor(s);
    ApplyAllFloor(Stopped(s, s.queue[0]), script[0].callback, At(s.expires, s.queue[0]), script[0].now);
  }

  lemma {:induction false} AscendingCons(f: Firing, log: seq<Firing>, e: int)
    requires e <= f.expiry && Ascending(log, f.expiry)
    ensures Ascending([f] + log, e) && LastExpiry([f] + log, e) == LastExpiry(log, f.expiry)
  {
  }

  /** What fires in one pass, and what stays queued after it, expires in order. */
  lemma {:induction false} ProcessOrder(s: Timers, script: seq<Round>, e: int, t: int)
    requires Consistent(s) && LegalScript(s, script) && Floor(s, e) && e <= t && SteadyScript(script, t)
    ensures var p := Process(s, script);
            Ascending(p.log, e) && Floor(p.after, LastExpiry(p.log, e)) && LastExpiry(p.log, e) <= LatestOf(script, t)
    decreases |script|
  {
    if Fires(s, script) {
      var now, l, k := script[0].now, script[0].callback, At(s.expires, s.queue[0]);
      FireFirstKeeps(s, script);
      FireFirstFloor(s, script, t);
      ProcessOrder(FireFirst(s, script), script[1..], k, Latest(l, now));
      assert e <= k by { assert s.queue[0] in s.queue; }
      AscendingCons(Firing(s.queue[0], k, now), Process(FireFirst(s, script), script[1..]).log, e);
      hide Consistent, Stopped, Ascending, Floor, At;
    } else {
      LatestOfGrows(script, t);
    }
  }

  lemma {:induction false} HeadFloor(s: Timers)
    requires Consistent(s) && s.queue != []
    ensures Floor(s, At(s.expires, s.queue[0]))
  {
    forall x | x in s.queue ensures At(s.expires, s.queue[0]) <= At(s.expires, x) {
      var i :| 0 <= i < |s.queue| && s.queue[i] == x;
      assert At(s.expires, s.queue[0]) <= At(s.expires, s.queue[i]);
    }
  }

  lemma {:induction false} LatestGrows(l: seq<Action>, t: int)
    requires Steady(l, t)
    ensures t <= Latest(l, t)
  {
    if l != [] { LatestGrows(l[1..], if l[0].Stop? then t else l[0].now); }
  }

  lemma {:induction false} LatestOfGrows(script: seq<Round>, t: int)
    requires SteadyScript(script, t)
    ensures t <= LatestOf(script, t)
  {
    if script != [] {
      LatestGrows(script[0].callback, script[0].now);
      LatestOfGrows(script[1..], Latest(script[0].callback, script[0].now));
    }
  }

  /** Over every run with a steady clock, the timers fire in order of expiry. */
  lemma {:induction false} RunOrder(s: Timers, run: seq<Event>, e: int, t: int)
    requires Consistent(s) && LegalRun(s, run) && Floor(s, e) && e <= t && SteadyRun(run, t)
    ensures Ascending(Run(s, run).log, e)
    decreases |run|
  {
    if run != [] {
      var p := Happen(s, run[0]);
      match run[0] {
        case Call(a) =>
          ApplyKeeps(s, a);
          ApplyFloor(s, a, e, t);
          RunOrder(p.after, run[1..], e, Latest([a], t));
        case Poll(script) =>
          ProcessKeeps(s, script);
          ProcessOrder(s, script, e, t);
          RunOrder(p.after, run[1..], LastExpiry(p.log, e), LatestOf(script, t));
      }
    }
  }
}
