/**
 * What the timers of the queue are set to, and how often they fire (suli/suli2.cpp): which
 * operation changes the interval and the repeat flag of which timer, and that a repeating
 * timer comes round for ever.
 */
module TimerRepeats {
  import opened TimerQueue

  datatype Setting = Setting(interval: u32, repeat: bool)

  /** What a queued timer is set to. */
  function SettingOf<T(==)>(q: Queue<T>, id: T): Setting
    requires Queued(q, id)
  {
    var e := q.es[IndexOf(q.es, id)];
    Setting(e.interval, e.repeat)
  }

  /** Every other timer is in both queues or in neither, with one setting. */
  ghost predicate OthersKeep<T(!new)>(q: Queue<T>, q': Queue<T>, id: T) {
    forall x: T :: x != id ==> SameFor(q, q', x)
  }

  ghost predicate SameFor<T>(q: Queue<T>, q': Queue<T>, x: T) {
    (Queued(q', x) <==> Queued(q, x)) && (Queued(q, x) ==> SettingOf(q', x) == SettingOf(q, x))
  }

  lemma InsertSettings<T(!new)>(q: Queue<T>, id: T, iv: u32, repeat: bool)
    requires Distinct(q.es) && !Queued(q, id)
    ensures var q' := q.(es := InsertEntry(q.es, id, iv, repeat));
            Queued(q', id) && SettingOf(q', id) == Setting(iv, repeat) && OthersKeep(q, q', id)
  {
    var q' := q.(es := InsertEntry(q.es, id, iv, repeat));
    InsertIds(q.es, id, iv, repeat, id);
    forall x: T | x != id ensures SameFor(q, q', x) {
      InsertSettingOf(q, id, iv, repeat, x);
    }
  }

  lemma InsertSettingOf<T(!new)>(q: Queue<T>, id: T, iv: u32, repeat: bool, x: T)
    requires Distinct(q.es) && !Queued(q, id) && x != id
    ensures SameFor(q, q.(es := InsertEntry(q.es, id, iv, repeat)), x)
  {
    InsertIds(q.es, id, iv, repeat, x);
    if Queued(q, x) {
      InsertedFields(q.es, id, iv, repeat, IndexOf(q.es, x));
    }
  }

  /** Insertion moves an entry's ticks, never its fields. */
  lemma InsertedFields<T>(es: seq<Entry<T>>, id: T, iv: u32, repeat: bool, k: nat)
    requires k < |es|
    ensures var us := InsertEntry(es, id, iv, repeat); var j := Shifted(Place(Ticks(es), iv, 0), k);
            j < |us| && us[j].interval == es[k].interval && us[j].repeat == es[k].repeat
  {
  }

  lemma PopSettings<T(!new)>(q: Queue<T>)
    requires Distinct(q.es) && q.es != []
    ensures !Queued(Popped(q), q.es[0].id) && OthersKeep(q, Popped(q), q.es[0].id)
  {
    HeadGone(q.es);
  }

  lemma FieldSettings<T(!new)>(q: Queue<T>, id: T, iv: u32, repeat: bool)
    requires Distinct(q.es) && Queued(q, id)
    ensures var k := IndexOf(q.es, id);
            var q' := q.(es := q.es[k := q.es[k].(interval := iv, repeat := repeat)]);
            Queued(q', id) && SettingOf(q', id) == Setting(iv, repeat) && OthersKeep(q, q', id)
  {
    var k := IndexOf(q.es, id);
    var q' := q.(es := q.es[k := q.es[k].(interval := iv, repeat := repeat)]);
    forall x: T ensures IndexOf(q'.es, x) == IndexOf(q.es, x) {
      SameIds(q.es, q'.es, x);
    }
    forall x: T | x != id ensures SameFor(q, q', x) {}
  }

  /** After an installation the timer is queued with the given interval and flag, and no other
      timer's setting has changed. */
  lemma InstallSets<T(!new)>(q: Queue<T>, id: T, iv: u32, repeat: bool)
    requires Distinct(q.es)
    ensures var q' := Step(q, InstallTimer(id, iv, repeat));
            Queued(q', id) && SettingOf(q', id) == Setting(iv, repeat) && OthersKeep(q, q', id)
  {
    if Queued(q, id) {
      FieldSettings(q, id, iv, repeat);
    } else {
      InsertSettings(q, id, iv, repeat);
    }
  }

  /** An interrupt takes off the head alone, unless it repeats; then no setting changes. */
  lemma InterruptSets<T(!new)>(q: Queue<T>)
    requires Distinct(q.es) && q.es != []
    ensures var q', h := Step(q, Interrupt), q.es[0];
            && OthersKeep(q, q', h.id)
            && (if h.repeat then SameFor(q, q', h.id) && Queued(q', h.id) else !Queued(q', h.id))
  {
    var h, p := q.es[0], Popped(q);
    PopSettings(q);
    if h.repeat {
      assert Distinct(p.es);
      InsertSettings(p, h.id, h.interval, true);
      assert IndexOf(q.es, h.id) == 0;
      KeepTwice(q, p, Fire(q), h.id);
    }
  }

  lemma KeepTwice<T(!new)>(q: Queue<T>, p: Queue<T>, q': Queue<T>, id: T)
    requires OthersKeep(q, p, id) && OthersKeep(p, q', id)
    ensures OthersKeep(q, q', id)
  {
    forall x: T | x != id ensures SameFor(q, q', x) {
      assert SameFor(q, p, x) && SameFor(p, q', x);
    }
  }

  lemma RemoveSets<T(!new)>(q: Queue<T>, id: T)
    requires Distinct(q.es)
    ensures var q' := Step(q, RemoveTimer(id)); !Queued(q', id) && OthersKeep(q, q', id)
  {
    if Queued(q, id) {
      var k := IndexOf(q.es, id);
      RemoveIds(q.es, k, id);
      forall x: T | x != id ensures SameFor(q, Remove(q, id), x) {
        RemoveIds(q.es, k, x);
      }
    }
  }

  /** Changing an interval changes that of the one timer, and only if it is queued. */
  lemma ControlSets<T(!new)>(q: Queue<T>, id: T, iv: u32)
    requires Distinct(q.es)
    ensures var q' := Step(q, ControlInterval(id, iv));
            && OthersKeep(q, q', id) && (Queued(q', id) <==> Queued(q, id))
            && (Queued(q, id) ==> SettingOf(q', id) == Setting(iv, SettingOf(q, id).repeat))
  {
    if Queued(q, id) {
      FieldSettings(q, id, iv, SettingOf(q, id).repeat);
    }
  }

  // ----- over runs

  /** The event neither sets nor removes the timer. */
  predicate Leaves<T(==)>(ev: Event<T>, id: T) {
    match ev
    case InstallTimer(x, _, _) => x != id
    case RemoveTimer(x) => x != id
    case ControlInterval(x, _) => x != id
    case Interrupt => true
  }

  lemma StepLeaves<T(!new)>(q: Queue<T>, ev: Event<T>, id: T)
    requires Distinct(q.es) && Leaves(ev, id) && Queued(q, id) && SettingOf(q, id).repeat
    ensures SameFor(q, Step(q, ev), id)
  {
    match ev
    case InstallTimer(x, iv, repeat) => InstallSets(q, x, iv, repeat);
    case RemoveTimer(x) => RemoveSets(q, x);
    case ControlInterval(x, iv) => ControlSets(q, x, iv);
    case Interrupt => InterruptSets(q);
  }

  /** Over any run of harmless events a repeating timer that nobody sets or removes is still
      queued at the end, repeating with the interval it had. */
  lemma {:induction false} StaysRepeating<T(!new)>(q: Queue<T>, evs: seq<Event<T>>, id: T)
    requires Sane(q.es) && AllAllowed(q, evs)
    requires Queued(q, id) && SettingOf(q, id).repeat && forall i :: 0 <= i < |evs| ==> Leaves(evs[i], id)
    ensures Sane(Run(q, evs).es) && Queued(Run(q, evs), id) && SettingOf(Run(q, evs), id) == SettingOf(q, id)
  {
    if evs != [] {
      var n := |evs| - 1;
      var front := evs[..n];
      OneFewerAllowed(q, front, evs, n);
      StaysRepeating(q, front, id);
      StepKeeps(Run(q, front), evs[n], id);
      StepLeaves(Run(q, front), evs[n], id);
    }
  }

  // ----- one timer alone

  lemma LoneFires<T>(id: T, iv: u32, t: nat)
    ensures Fire(Queue(t, [Entry(id, iv, true, iv)])) == Queue(t + iv, [Entry(id, iv, true, iv)])
  {
  }

  lemma {:induction false} LoneRun<T>(id: T, iv: u32, t: nat, n: nat)
    ensures Run(Queue(t, [Entry(id, iv, true, iv)]), Interrupts(n)) == Queue(t + n * iv, [Entry(id, iv, true, iv)])
  {
    var q := Queue(t, [Entry(id, iv, true, iv)]);
    if n == 0 {
      assert Interrupts<T>(0) == [];
    } else {
      LoneRun(id, iv, t, n - 1);
      OneMoreInterrupt(q, n - 1);
      LoneFires(id, iv, t + (n - 1) * iv);
      assert n * iv == (n - 1) * iv + iv;
    }
  }

  /** A repeating timer installed into an empty queue is still queued after every number of
      interrupts: the n-th comes at n intervals from the start, and the next is due one later. */
  lemma LoneTimer<T>(id: T, iv: u32, t: nat, n: nat)
    ensures var l := Run(Step(Queue(t, []), InstallTimer(id, iv, true)), Interrupts(n));
            && l.now == t + n * iv && |l.es| == 1
            && Queued(l, id) && SettingOf(l, id) == Setting(iv, true) && Due(l, id) == t + (n + 1) * iv
  {
    assert Step(Queue(t, []), InstallTimer(id, iv, true)) == Queue(t, [Entry(id, iv, true, iv)]);
    LoneRun(id, iv, t, n);
    var l := Queue(t + n * iv, [Entry(id, iv, true, iv)]);
    LoneDeadline(Ticks(l.es), iv);
    assert (n + 1) * iv == n * iv + iv;
  }

  lemma LoneDeadline(ts: seq<u32>, iv: u32)
    requires ts == [iv]
    ensures Deadline(ts, 0) == iv
  {
    assert Prefix(ts, 0) == 0;
  }

  // ----- among others

  lemma {:induction false} RunInterrupts<T>(q: Queue<T>, m: nat, n: nat)
    ensures Run(Run(q, Interrupts(m)), Interrupts(n)) == Run(q, Interrupts(m + n))
  {
    if n == 0 {
      assert Interrupts<T>(0) == [];
    } else {
      RunInterrupts(q, m, n - 1);
      LastInterrupt(Run(q, Interrupts(m)), n);
      LastInterrupt(q, m + n);
    }
  }

  lemma LastInterrupt<T>(q: Queue<T>, n: nat)
    requires n > 0
    ensures Run(q, Interrupts(n)) == Fire(Run(q, Interrupts(n - 1)))
  {
    OneMoreInterrupt(q, n - 1);
  }

  lemma {:induction false} InterruptsHealthy<T(!new)>(q: Queue<T>, n: nat)
    requires Healthy(q.es) && Advancing(q.es)
    ensures Healthy(Run(q, Interrupts(n)).es) && Advancing(Run(q, Interrupts(n)).es)
  {
    if n == 0 {
      assert Interrupts<T>(0) == [];
    } else {
      InterruptsHealthy(q, n - 1);
      OneMoreInterrupt(q, n - 1);
      var l := Run(q, Interrupts(n - 1));
      if l.es != [] { FireHealthy(l); }
      FireAdvancing(l);
    }
  }

  /** The queue with the timer at its head. */
  ghost predicate AtHead<T>(q: Queue<T>, id: T) {
    q.es != [] && q.es[0].id == id
  }

  /** A repeating timer at the head fires, comes back to the head, and then fires one interval
      after that, or 80 ticks later if that time was taken. */
  lemma FiresAgain<T(!new)>(q: Queue<T>, id: T) returns (n: nat)
    requires Healthy(q.es) && Advancing(q.es) && AtHead(q, id) && q.es[0].repeat
    ensures n > 0 && NotYet(Fire(q), id, n - 1)
    ensures var l, h := Run(q, Interrupts(n)), q.es[0];
            && AtHead(l, id) && l.es[0].repeat && l.es[0].interval == h.interval
            && Fire(l).now == Fire(q).now + h.interval + (if Ties(Ticks(q.es[1..]), h.interval) then TICK else 0)
  {
    var f := Fire(q);
    FiredAgain(q, id);
    var k := ComesRound(f, id, q.es[0].interval);
    n := k + 1;
    AfterOne(q, f, k, n);
  }

  lemma AfterOne<T>(q: Queue<T>, f: Queue<T>, k: nat, n: nat)
    requires f == Fire(q) && n == k + 1
    ensures Run(q, Interrupts(n)) == Run(f, Interrupts(k))
  {
    OneInterrupt(q);
    RunInterrupts(q, 1, k);
  }

  lemma ComesRound<T(!new)>(f: Queue<T>, id: T, iv: u32) returns (k: nat)
    requires Healthy(f.es) && Advancing(f.es) && Queued(f, id) && SettingOf(f, id) == Setting(iv, true)
    ensures NotYet(f, id, k)
    ensures var l := Run(f, Interrupts(k));
            AtHead(l, id) && l.es[0].repeat && l.es[0].interval == iv && Fire(l).now == Due(f, id)
  {
    k := EveryTimerFires(f, id);
    HeadSetting(f, id, k);
  }

  /** The queue after a repeating timer has fired. */
  lemma FiredAgain<T(!new)>(q: Queue<T>, id: T)
    requires Healthy(q.es) && Advancing(q.es) && AtHead(q, id) && q.es[0].repeat
    ensures var f, h := Fire(q), q.es[0];
            && Healthy(f.es) && Advancing(f.es) && Queued(f, id) && SettingOf(f, id) == Setting(h.interval, true)
            && Due(f, id) == f.now + h.interval + (if Ties(Ticks(q.es[1..]), h.interval) then TICK else 0)
  {
    FireHealthy(q);
    FireAdvancing(q);
    FireKeeps(q);
    InterruptSets(q);
    assert IndexOf(q.es, id) == 0;
  }

  lemma HeadSetting<T(!new)>(f: Queue<T>, id: T, k: nat)
    requires Healthy(f.es) && Queued(f, id) && SettingOf(f, id).repeat && AtHead(Run(f, Interrupts(k)), id)
    ensures var h := Run(f, Interrupts(k)).es[0]; h.repeat && h.interval == SettingOf(f, id).interval
  {
    HealthyRoom(f.es, 0);
    GridRun(f, Interrupts(k));
    StaysRepeating(f, Interrupts(k), id);
    assert IndexOf(Run(f, Interrupts(k)).es, id) == 0;
  }

  lemma OneInterrupt<T>(q: Queue<T>)
    ensures Run(q, Interrupts(1)) == Fire(q)
  {
    assert Interrupts<T>(0) == [];
    OneMoreInterrupt(q, 0);
  }

  /** How many of the first n interrupts are the timer's own. */
  ghost function Firings<T>(q: Queue<T>, id: T, n: nat): nat {
    if n == 0 then 0
    else Firings(q, id, n - 1) + if AtHead(Run(q, Interrupts(n - 1)), id) then 1 else 0
  }

  lemma {:induction false} FiringsGrow<T>(q: Queue<T>, id: T, m: nat, n: nat)
    requires m <= n
    ensures Firings(q, id, m) <= Firings(q, id, n)
  {
    if m < n { FiringsGrow(q, id, m, n - 1); }
  }

  lemma OneMoreFiring<T>(q: Queue<T>, id: T, m: nat, n: nat, next: nat, l: Queue<T>)
    requires m <= n && next == n + 1 && l == Run(q, Interrupts(n)) && AtHead(l, id)
    ensures Firings(q, id, next) > Firings(q, id, m)
  {
    FiringsGrow(q, id, m, n);
  }

  lemma Turn<T(!new)>(q: Queue<T>, id: T) returns (j: nat)
    requires Healthy(q.es) && Advancing(q.es) && Queued(q, id)
    ensures AtHead(Run(q, Interrupts(j)), id)
  {
    j := EveryTimerFires(q, id);
  }

  lemma NextFiring<T>(q: Queue<T>, id: T, k: nat, j: nat, l: Queue<T>) returns (n: nat)
    requires l == Run(q, Interrupts(k)) && AtHead(Run(l, Interrupts(j)), id)
    ensures Firings(q, id, n) > Firings(q, id, k)
  {
    var at := k + j;
    n := at + 1;
    RunsOn(q, k, j, at, l, Run(l, Interrupts(j)));
    OneMoreFiring(q, id, k, at, n, Run(l, Interrupts(j)));
  }

  lemma RunsOn<T>(q: Queue<T>, k: nat, j: nat, at: nat, l: Queue<T>, l': Queue<T>)
    requires at == k + j && l == Run(q, Interrupts(k)) && l' == Run(l, Interrupts(j))
    ensures l' == Run(q, Interrupts(at))
  {
    RunInterrupts(q, k, j);
  }

  /** A repeating timer fires any number of times. */
  lemma {:induction false} FiresForEver<T(!new)>(q: Queue<T>, id: T, m: nat) returns (n: nat)
    requires Healthy(q.es) && Advancing(q.es) && Queued(q, id) && SettingOf(q, id).repeat
    ensures Firings(q, id, n) >= m
  {
    n := 0;
    if m > 0 {
      var k := FiresForEver(q, id, m - 1);
      var l := StillRepeating(q, id, k);
      var j := Turn(l, id);
      n := NextFiring(q, id, k, j, l);
    }
  }

  lemma StillRepeating<T(!new)>(q: Queue<T>, id: T, k: nat) returns (l: Queue<T>)
    requires Healthy(q.es) && Advancing(q.es) && Queued(q, id) && SettingOf(q, id).repeat
    ensures l == Run(q, Interrupts(k)) && Healthy(l.es) && Advancing(l.es) && Queued(l, id)
  {
    l := Run(q, Interrupts(k));
    InterruptsHealthy(q, k);
    HealthyRoom(q.es, 0);
    GridRun(q, Interrupts(k));
    StaysRepeating(q, Interrupts(k), id);
  }
}
