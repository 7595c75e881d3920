/** timer.c and the inline functions of timer.h: timers over the one timer queue of the program. */
module Timers {
  import opened RbShape
  import opened RbHeap
  import opened TimerOrder
  import TimerQueue
  import opened TimerSpec
  import opened TimerFate

  /** The conversion to int of a 64-bit value, as the target does it. */
  function Int32(x: int): int { (x + 0x8000_0000) % 0x1_0000_0000 - 0x8000_0000 }

  /** The conversion is exact in the range of int and nowhere else, and what is lost is a multiple of 2^32. */
  lemma {:induction false} Int32Exact(x: int)
    ensures Int32(x) == x <==> -0x8000_0000 <= x < 0x8000_0000
    ensures -0x8000_0000 <= Int32(x) < 0x8000_0000 && (x - Int32(x)) % 0x1_0000_0000 == 0
  {
  }

  lemma {:induction false} StateOf(s: Timers, x: Ptr)
    requires Consistent(s) && x in s.state
    ensures s.state[x] == ENQUEUED <==> x in s.queue
    ensures NULL !in s.queue && x != NULL
  {
  }

  class TimerList {
    const list: TimerQueue.TimerQueueHead
    var state: map<Ptr, nat>

    ghost function View(): Timers
      reads this, list, list.head
    {
      Timers(list.Contents(), list.expires, state)
    }

    ghost predicate Valid()
      reads this, list, list.head
    {
      list.Valid() && Consistent(View()) && list.head.mem.Keys == state.Keys
    }

    constructor ()
      ensures Valid() && fresh(list) && fresh(list.head) && View() == Timers([], map[], map[])
    {
      list := new TimerQueue.TimerQueueHead(map[], map[]);
      state := map[];
    }

    method Dequeue(timer: Ptr)
      requires Valid() && timer in state
      modifies list`next, list`arrivals, list.head
      ensures list.Valid() && list.head.mem.Keys == old(list.head.mem.Keys)
      ensures View() == Dequeued(old(View()), timer)
    {
      StateOf(View(), timer);
      if state[timer] == ENQUEUED {
        list.Del(timer);
      }
    }

    /** What start_timer and update_timer have in common once the timer is out of the queue. */
    method Enter(timer: Ptr, expiry: int)
      requires list.Valid() && timer in list.head.mem && timer != NULL && timer !in View().queue
      modifies this`state, list`next, list`arrivals, list`expires, list.head
      ensures list.Valid() && list.head.mem.Keys == old(list.head.mem.Keys)
      ensures View() == Entered(old(View()), timer, expiry)
    {
      list.SetExpires(timer, expiry);
      list.Add(timer);
      state := state[timer := ENQUEUED];
    }

    method StopTimer(timer: Ptr)
      requires Valid() && timer in state
      modifies this`state, list`next, list`arrivals, list.head
      ensures Valid() && View() == Stopped(old(View()), timer)
    {
      StoppedKeeps(View(), timer);
      Dequeue(timer);
      state := state[timer := INACTIVE];
    }

    method StartTimer(timer: Ptr, now: int, timeout: int)
      requires Valid() && timer in state
      modifies this`state, list`next, list`arrivals, list`expires, list.head
      ensures Valid() && View() == Started(old(View()), timer, now + timeout)
    {
      hide Consistent, Entered, TimerQueue.TimerQueueHead.Valid, TimerQueue.TimerQueueHead.Contents;
      hide Enqueue, Without, At, Unique, Ordered;
      StateOf(View(), timer);
      StoppedKeeps(View(), timer);
      StartedKeeps(View(), timer, now + timeout);
      Dequeue(timer);
      Enter(timer, now + timeout);
    }

    method UpdateTimer(timer: Ptr, now: int, timeout: int)
      requires Valid() && timer in state
      modifies this`state, list`next, list`arrivals, list`expires, list.head
      ensures Valid() && View() == Started(Stopped(old(View()), timer), timer, now + timeout)
    {
      hide Consistent, Entered, TimerQueue.TimerQueueHead.Valid, TimerQueue.TimerQueueHead.Contents;
      hide Enqueue, Without, At, Unique, Ordered;
      StateOf(View(), timer);
      StoppedKeeps(View(), timer);
      StartedKeeps(Stopped(View(), timer), timer, now + timeout);
      StopTimer(timer);
      Enter(timer, now + timeout);
    }

    /** add_timer, for a structure that malloc has placed at the unused address timer. */
    method AddTimer(timer: Ptr, now: int, timeout: int)
      requires Valid() && Enabled(View(), Add(timer, now, timeout))
      modifies this`state, list, list.head
      ensures Valid() && View() == Apply(old(View()), Add(timer, now, timeout))
    {
      hide Consistent, Started, Enqueue, Without, At, Unique, Ordered;
      CreatedKeeps(View(), timer);
      list.Init(timer);
      state := state[timer := INACTIVE];
      StartTimer(timer, now, timeout);
    }

    method Perform(a: Action)
      requires Valid() && Enabled(View(), a)
      modifies this`state, list, list.head
      ensures Valid() && View() == Apply(old(View()), a)
    {
      match a {
        case Stop(x) => StopTimer(x);
        case Start(x, now, timeout) => StartTimer(x, now, timeout);
        case Update(x, now, timeout) => UpdateTimer(x, now, timeout);
        case Add(x, now, timeout) => AddTimer(x, now, timeout);
      }
    }

    /** A callback is any sequence of calls; a timer without a callback makes none. */
    method Callback(l: seq<Action>)
      requires Valid() && Legal(View(), l)
      modifies this`state, list, list.head
      ensures Valid() && View() == ApplyAll(old(View()), l)
    {
      var i := 0;
      while i < |l|
        invariant i <= |l| && Valid() && Legal(View(), l[i..]) && ApplyAll(old(View()), l) == ApplyAll(View(), l[i..])
      {
        Perform(l[i]);
        i := i + 1;
      }
    }

    /** What timerqueue_getnext returns. */
    lemma {:induction false} NextIsFirst()
      requires Valid()
      ensures list.next == NULL <==> View().queue == []
      ensures View().queue != [] ==> list.next == View().queue[0] && list.next in list.expires
    {
      FirstTimer(View());
    }

    /** The body of the loop of process_timer, for the first timer when it is due. */
    method Fire(pos: Ptr, callback: seq<Action>, ghost script: seq<Round>)
      requires Valid() && LegalScript(View(), script) && Fires(View(), script)
      requires pos == View().queue[0] && callback == script[0].callback
      modifies this`state, list, list.head
      ensures Valid() && View() == FireFirst(old(View()), script) && pos in list.expires
      ensures LegalScript(View(), script[1..])
      ensures forall x ::
        Standing(View(), x) == After([Elapsed(pos)] + Called(callback), x, Standing(old(View()), x))
    {
      hide Standing, After, Called;
      RoundFates(View(), script);
      Lasting(Stopped(View(), pos), callback, pos);
      StopTimer(pos);
      Callback(callback);
    }

    /**
     process_timer, as far as the script goes.  It returns the time until the first timer that is not due,
     or 1000 if there was nothing in the queue to begin with.
     */
    method ProcessTimer(script: seq<Round>) returns (r: int, log: seq<Firing>, played: nat)
      requires Valid() && LegalScript(View(), script)
      modifies this`state, list, list.head
      ensures Valid() && played <= |script|
      ensures Process(old(View()), script) == Pass(View(), log, script[played..])
      ensures |log| == played
              && forall x :: Standing(View(), x) == After(History(log, script), x, Standing(old(View()), x))
      ensures old(View()).queue == [] ==> r == 1000
      ensures View().queue == [] && log != [] ==>
        var last := log[|log| - 1]; last.timer in list.expires && r == Int32(list.expires[last.timer] - last.now)
      ensures View().queue != [] && played < |script|
          ==> r == Int32(At(View().expires, View().queue[0]) - script[played].now)
    {
      hide Consistent, Legal, LegalScript, FireFirst, Prepend, Standing, After, Called, History, Process;
      PassFates(View(), script);
      var pos, now := NULL, 0;
      log, played := [], 0;
      PrependNothing(Process(View(), script));
      while list.next != NULL && played < |script|
        invariant played <= |script| && Valid() && LegalScript(View(), script[played..])
        invariant Process(old(View()), script) == Prepend(log, Process(View(), script[played..]))
        invariant pos == NULL ==> View() == old(View())
        invariant pos != NULL ==> pos in list.expires && old(View()).queue != []
        invariant |log| == played
        invariant log != [] ==> pos != NULL && pos == log[|log| - 1].timer && now == log[|log| - 1].now
        decreases |script| - played
      {
        NextIsFirst();
        pos, now := list.next, script[played].now;
        var expiry := list.expires[pos];
        if expiry > now {
          break;
        }
        PrependFirst(View(), script[played..], log);
        Fire(pos, script[played].callback, script[played..]);
        log := log + [Firing(pos, expiry, now)];
        played := played + 1;
      }
      NextIsFirst();
      Stuck(View(), script[played..], log);
      r := if pos != NULL then Int32(list.expires[pos] - now) else 1000;
    }
  }

  lemma {:induction false} RoundFates(s: Timers, script: seq<Round>)
    requires Consistent(s) && Fires(s, script) && LegalScript(s, script)
    ensures forall x :: Standing(FireFirst(s, script), x)
                     == After([Elapsed(s.queue[0])] + Called(script[0].callback), x, Standing(s, x))
  {
    hide Consistent, FireFirst, Standing, After, Called, LegalScript;
    forall x ensures Standing(FireFirst(s, script), x)
                  == After([Elapsed(s.queue[0])] + Called(script[0].callback), x, Standing(s, x)) {
      RoundFate(s, script, x);
    }
  }

  lemma {:induction false} PassFates(s: Timers, script: seq<Round>)
    requires Consistent(s) && LegalScript(s, script)
    ensures var p := Process(s, script);
            |p.log| <= |script| && forall x :: Standing(p.after, x) == After(History(p.log, script), x, Standing(s, x))
  {
    hide Consistent, Process, Standing, After, History, LegalScript;
    PassFate(s, script, NULL);
    forall x ensures Standing(Process(s, script).after, x)
                  == After(History(Process(s, script).log, script), x, Standing(s, x)) {
      PassFate(s, script, x);
    }
  }

  ghost function Prepend(log: seq<Firing>, p: Pass): Pass { p.(log := log + p.log) }

  lemma {:induction false} PrependNothing(p: Pass)
    ensures Prepend([], p) == p
  {
  }

  lemma {:induction false} Stuck(s: Timers, script: seq<Round>, log: seq<Firing>)
    requires LegalScript(s, script) && !Fires(s, script)
    ensures Prepend(log, Process(s, script)) == Pass(s, log, script)
  {
  }

  lemma {:induction false} PrependFirst(s: Timers, script: seq<Round>, log: seq<Firing>)
    requires Fires(s, script) && LegalScript(s, script)
    ensures Prepend(log, Process(s, script))
         == Prepend(log + [Firing(s.queue[0], At(s.expires, s.queue[0]), script[0].now)],
             Process(FireFirst(s, script), script[1..]))
  {
    var f, rest := Firing(s.queue[0], At(s.expires, s.queue[0]), script[0].now),
        Process(FireFirst(s, script), script[1..]).log;
    assert log + ([f] + rest) == (log + [f]) + rest;
  }

  /** No operation makes a timer disappear. */
  lemma {:induction false} Lasting(s: Timers, l: seq<Action>, x: Ptr)
    requires Legal(s, l) && x in s.expires
    ensures x in ApplyAll(s, l).expires
    decreases |l|
  {
    if l != [] { Lasting(Apply(s, l[0]), l[1..], x); }
  }

  lemma {:induction false} FirstTimer(s: Timers)
    requires Consistent(s)
    ensures s.queue != [] ==> s.queue[0] in s.state && s.queue[0] in s.expires && s.queue[0] != NULL
  {
    if s.queue != [] { assert s.queue[0] in s.queue; }
  }
}
