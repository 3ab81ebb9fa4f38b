/**
 * The OTA status rendezvous between devices that report and browsers that poll
 * (handlers.py, server.py): two dictionaries of queues that together are one channel per node.
 */
module OtaStatus {

  type Serial = string

  // ----- the two dictionaries

  /** The list under a key, counting an absent one as empty. */
  function Queue<T>(m: map<Serial, seq<T>>, sn: Serial): seq<T> {
    if sn in m then m[sn] else []
  }

  datatype Board<S, F> = Board(waiters: map<Serial, seq<F>>, happened: map<Serial, seq<S>>)

  /** An answer: the poll that gets a status. */
  datatype Answer<S, F> = NoAnswer | Answer(to: F, status: S)

  /** A status comes in: to the oldest waiting poll if there is one, else it is kept. */
  function Post<S, F>(b: Board<S, F>, sn: Serial, s: S): (Board<S, F>, Answer<S, F>) {
    if sn in b.waiters && |b.waiters[sn]| > 0 then
      var rest := b.waiters[sn][1..];
      (b.(waiters := if rest == [] then b.waiters - {sn} else b.waiters[sn := rest]), Answer(b.waiters[sn][0], s))
    else (b.(happened := b.happened[sn := Queue(b.happened, sn) + [s]]), NoAnswer)
  }

  /** A poll comes in: it takes the oldest kept status, else it waits. */
  function Poll<S, F>(b: Board<S, F>, sn: Serial, f: F): (Board<S, F>, Answer<S, F>) {
    if sn in b.happened && |b.happened[sn]| > 0 then
      var rest := b.happened[sn][1..];
      (b.(happened := if rest == [] then b.happened - {sn} else b.happened[sn := rest]), Answer(f, b.happened[sn][0]))
    else (b.(waiters := b.waiters[sn := Queue(b.waiters, sn) + [f]]), NoAnswer)
  }

  /** A new build clears what was left of the last one. */
  function Reset<S, F>(b: Board<S, F>, sn: Serial): Board<S, F> {
    Board(b.waiters[sn := []], b.happened[sn := []])
  }

  // ----- runs

  /** A poll whose timeout goes off stays in its queue. */
  datatype Event<S, F> =
    | Posted(sn: Serial, status: S)
    | Polled(sn: Serial, poll: F)
    | BuildReset(sn: Serial)
    | PollExpired(sn: Serial, poll: F)

  function Step<S, F>(b: Board<S, F>, ev: Event<S, F>): (Board<S, F>, Answer<S, F>) {
    match ev
    case Posted(sn, s) => Post(b, sn, s)
    case Polled(sn, f) => Poll(b, sn, f)
    case BuildReset(sn) => (Reset(b, sn), NoAnswer)
    case PollExpired(_, _) => (b, NoAnswer)
  }

  function Run<S, F>(evs: seq<Event<S, F>>): Board<S, F> {
    if evs == [] then Board(map[], map[]) else Step(Run(evs[..|evs| - 1]), evs[|evs| - 1]).0
  }

  // ----- the channel of one node since its last reset

  function Statuses<S, F>(evs: seq<Event<S, F>>, sn: Serial): seq<S> {
    if evs == [] then []
    else
      var ev, before := evs[|evs| - 1], Statuses(evs[..|evs| - 1], sn);
      if ev.sn != sn then before
      else match ev
        case Posted(_, s) => before + [s]
        case BuildReset(_) => []
        case _ => before
  }

  function Polls<S, F>(evs: seq<Event<S, F>>, sn: Serial): seq<F> {
    if evs == [] then []
    else
      var ev, before := evs[|evs| - 1], Polls(evs[..|evs| - 1], sn);
      if ev.sn != sn then before
      else match ev
        case Polled(_, f) => before + [f]
        case BuildReset(_) => []
        case _ => before
  }

  function Answers<S, F>(evs: seq<Event<S, F>>, sn: Serial): seq<(F, S)> {
    if evs == [] then []
    else
      var ev, before := evs[|evs| - 1], Answers(evs[..|evs| - 1], sn);
      if ev.sn != sn then before
      else if ev.BuildReset? then []
      else match Step(Run(evs[..|evs| - 1]), ev).1
        case NoAnswer => before
        case Answer(f, s) => before + [(f, s)]
  }

  function Min(a: nat, b: nat): (m: nat) { if a < b then a else b }

  function Pairs<S, F>(fs: seq<F>, ss: seq<S>): (ps: seq<(F, S)>)
    ensures |ps| == Min(|fs|, |ss|) && forall k :: 0 <= k < |ps| ==> ps[k] == (fs[k], ss[k])
  {
    seq(Min(|fs|, |ss|), (k: nat) requires k < |fs| && k < |ss| => (fs[k], ss[k]))
  }

  /** One channel: the polls not yet answered and the statuses not yet taken are what is left
      when the k-th status has gone to the k-th poll. */
  ghost predicate OneChannel<S(!new), F(!new)>(evs: seq<Event<S, F>>, sn: Serial) {
    var b, fs, ss := Run(evs), Polls(evs, sn), Statuses(evs, sn);
    var m := Min(|fs|, |ss|);
    && Queue(b.waiters, sn) == fs[m..]
    && Queue(b.happened, sn) == ss[m..]
    && Answers(evs, sn) == Pairs(fs, ss)
  }

  lemma OtherNodesKept<S, F>(b: Board<S, F>, ev: Event<S, F>, sn: Serial)
    requires ev.sn != sn
    ensures Queue(Step(b, ev).0.waiters, sn) == Queue(b.waiters, sn)
    ensures Queue(Step(b, ev).0.happened, sn) == Queue(b.happened, sn)
  {
  }

  lemma PostStep<S, F>(b: Board<S, F>, sn: Serial, s: S, fs: seq<F>, ss: seq<S>)
    requires var m := Min(|fs|, |ss|); Queue(b.waiters, sn) == fs[m..] && Queue(b.happened, sn) == ss[m..]
    ensures var (b', a) := Post(b, sn, s);
            var m' := Min(|fs|, |ss + [s]|);
            && Queue(b'.waiters, sn) == fs[m'..] && Queue(b'.happened, sn) == (ss + [s])[m'..]
            && Pairs(fs, ss + [s]) == Pairs(fs, ss) + (if a.NoAnswer? then [] else [(a.to, a.status)])
  {
    if |ss| < |fs| {
      assert fs[|ss|..][1..] == fs[|ss| + 1..];
    }
  }

  lemma PollStep<S, F>(b: Board<S, F>, sn: Serial, f: F, fs: seq<F>, ss: seq<S>)
    requires var m := Min(|fs|, |ss|); Queue(b.waiters, sn) == fs[m..] && Queue(b.happened, sn) == ss[m..]
    ensures var (b', a) := Poll(b, sn, f);
            var m' := Min(|fs + [f]|, |ss|);
            && Queue(b'.waiters, sn) == (fs + [f])[m'..] && Queue(b'.happened, sn) == ss[m'..]
            && Pairs(fs + [f], ss) == Pairs(fs, ss) + (if a.NoAnswer? then [] else [(a.to, a.status)])
  {
    if |fs| < |ss| {
      assert ss[|fs|..][1..] == ss[|fs| + 1..];
    }
  }

  /** In every interleaving, for every node, the two queues are one FIFO channel. */
  lemma {:induction false} AlwaysOneChannel<S(!new), F(!new)>(evs: seq<Event<S, F>>, sn: Serial)
    ensures OneChannel(evs, sn)
  {
    if evs != [] {
      var front, ev := evs[..|evs| - 1], evs[|evs| - 1];
      AlwaysOneChannel(front, sn);
      var b := Run(front);
      if ev.sn != sn {
        OtherNodesKept(b, ev, sn);
      } else {
        match ev
        case Posted(_, s) => PostStep(b, sn, s, Polls(front, sn), Statuses(front, sn));
        case Polled(_, f) => PollStep(b, sn, f, Polls(front, sn), Statuses(front, sn));
        case _ =>
      }
    }
  }

  /** Never both a waiting poll and a kept status, and the k-th status since a reset answers
      the k-th poll. */
  lemma Rendezvous<S(!new), F(!new)>(evs: seq<Event<S, F>>, sn: Serial)
    ensures Queue(Run(evs).waiters, sn) == [] || Queue(Run(evs).happened, sn) == []
    ensures |Answers(evs, sn)| == Min(|Polls(evs, sn)|, |Statuses(evs, sn)|)
    ensures forall k :: 0 <= k < |Answers(evs, sn)| ==> Answers(evs, sn)[k] == (Polls(evs, sn)[k], Statuses(evs, sn)[k])
  {
    AlwaysOneChannel(evs, sn);
  }

  // ----- polls that give up

  /** What has become of a poll: it waits, has given up waiting, or has read a status. */
  datatype Client<S> = Absent | Waiting | GaveUp | Read(status: S)

  /** A poll after a run. An answer reaches it only while it waits, or as it comes in. */
  function ClientOf<S, F(==)>(evs: seq<Event<S, F>>, sn: Serial, f: F): Client<S> {
    if evs == [] then Absent
    else
      var front, ev := evs[..|evs| - 1], evs[|evs| - 1];
      var c := ClientOf(front, sn, f);
      if ev.sn != sn then c
      else match ev
        case Posted(_, _) =>
          var a := Step(Run(front), ev).1;
          if a.Answer? && a.to == f && c == Waiting then Read(a.status) else c
        case Polled(_, g) =>
          if g != f then c
          else
            var a := Step(Run(front), ev).1;
            if a.Answer? then Read(a.status) else Waiting
        case PollExpired(_, g) => if g == f && c == Waiting then GaveUp else c
        case BuildReset(_) => c
  }

  /** The events that brought the statuses of the channel in, as positions in the run. */
  function StatusTimes<S, F>(evs: seq<Event<S, F>>, sn: Serial): (ts: seq<nat>)
    ensures |ts| == |Statuses(evs, sn)|
    ensures forall k :: 0 <= k < |ts| ==> ts[k] < |evs|
  {
    if evs == [] then []
    else
      var ev, before := evs[|evs| - 1], StatusTimes(evs[..|evs| - 1], sn);
      if ev.sn != sn then before
      else match ev
        case Posted(_, _) => before + [|evs| - 1]
        case BuildReset(_) => []
        case _ => before
  }

  /** The events that brought its polls in. */
  function PollTimes<S, F>(evs: seq<Event<S, F>>, sn: Serial): (ts: seq<nat>)
    ensures |ts| == |Polls(evs, sn)|
    ensures forall k :: 0 <= k < |ts| ==> ts[k] < |evs| && evs[ts[k]] == Polled(sn, Polls(evs, sn)[k])
    ensures forall j, k :: 0 <= j < k < |ts| ==> ts[j] < ts[k]
  {
    if evs == [] then []
    else
      var ev, before := evs[|evs| - 1], PollTimes(evs[..|evs| - 1], sn);
      if ev.sn != sn then before
      else match ev
        case Polled(_, _) => before + [|evs| - 1]
        case BuildReset(_) => []
        case _ => before
  }

  /** When the k-th poll and the k-th status had both come in. */
  function AnswerTime<S, F>(evs: seq<Event<S, F>>, sn: Serial, k: nat): nat
    requires k < |Polls(evs, sn)| && k < |Statuses(evs, sn)|
  {
    var p, s := PollTimes(evs, sn)[k], StatusTimes(evs, sn)[k];
    if p < s then s else p
  }

  ghost predicate ExpiredAt<S, F>(evs: seq<Event<S, F>>, sn: Serial, f: F, i: int) {
    0 <= i < |evs| && evs[i] == PollExpired(sn, f)
  }

  /** The poll's timeout went off strictly between two events of the run. */
  ghost predicate ExpiredBetween<S, F>(evs: seq<Event<S, F>>, sn: Serial, f: F, lo: int, hi: int) {
    exists i :: lo < i < hi && ExpiredAt(evs, sn, f, i)
  }

  /** Every poll is its own future: none comes in twice. */
  ghost predicate DistinctPolls<S, F>(evs: seq<Event<S, F>>) {
    forall i, j :: 0 <= i < j < |evs| && evs[i].Polled? ==> evs[i] != evs[j]
  }

  /** The k-th poll of the channel: answered in time, answered too late, waiting, or gone. */
  ghost predicate PollFate<S, F>(evs: seq<Event<S, F>>, sn: Serial, k: nat)
    requires k < |Polls(evs, sn)|
  {
    var f, p, c := Polls(evs, sn)[k], PollTimes(evs, sn)[k], ClientOf(evs, sn, Polls(evs, sn)[k]);
    if k < |Statuses(evs, sn)| then
      c == if ExpiredBetween(evs, sn, f, p, AnswerTime(evs, sn, k)) then GaveUp else Read(Statuses(evs, sn)[k])
    else
      c == if ExpiredBetween(evs, sn, f, p, |evs|) then GaveUp else Waiting
  }

  /** An event adds to the expiries of a period only if it is one, within it. */
  lemma ExpiredGrows<S, F>(evs: seq<Event<S, F>>, ev: Event<S, F>, sn: Serial, f: F, lo: int, hi: int)
    requires hi <= |evs|
    ensures ExpiredBetween(evs + [ev], sn, f, lo, hi) == ExpiredBetween(evs, sn, f, lo, hi)
    ensures lo < |evs| ==>
              ExpiredBetween(evs + [ev], sn, f, lo, |evs| + 1)
              == (ExpiredBetween(evs, sn, f, lo, |evs|) || ev == PollExpired(sn, f))
  {
    var more := evs + [ev];
    forall i ensures i < |evs| ==> ExpiredAt(more, sn, f, i) == ExpiredAt(evs, sn, f, i) {}
    assert ExpiredAt(more, sn, f, |evs|) == (ev == PollExpired(sn, f));
  }

  lemma PollsApart<S, F>(evs: seq<Event<S, F>>, sn: Serial, j: nat, k: nat)
    requires DistinctPolls(evs) && j < k < |Polls(evs, sn)|
    ensures Polls(evs, sn)[j] != Polls(evs, sn)[k]
  {
    var ts := PollTimes(evs, sn);
    assert evs[ts[j]].Polled? && ts[j] < ts[k];
  }

  /** What one more event does to the lists of a channel. */
  lemma ChannelStep<S, F>(evs: seq<Event<S, F>>, ev: Event<S, F>, sn: Serial)
    requires ev.sn == sn
    ensures var more := evs + [ev];
            && (ev.Posted? ==> Statuses(more, sn) == Statuses(evs, sn) + [ev.status]
                               && StatusTimes(more, sn) == StatusTimes(evs, sn) + [|evs|])
            && (ev.Polled? ==> Polls(more, sn) == Polls(evs, sn) + [ev.poll]
                               && PollTimes(more, sn) == PollTimes(evs, sn) + [|evs|])
            && (!ev.Posted? && !ev.BuildReset? ==> Statuses(more, sn) == Statuses(evs, sn)
                                                   && StatusTimes(more, sn) == StatusTimes(evs, sn))
            && (!ev.Polled? && !ev.BuildReset? ==> Polls(more, sn) == Polls(evs, sn)
                                                   && PollTimes(more, sn) == PollTimes(evs, sn))
  {
    assert (evs + [ev])[..|evs|] == evs;
  }

  /** A poll that is neither the event's own nor answered by it stays as it was. */
  lemma FateKept<S(!new), F(!new)>(evs: seq<Event<S, F>>, ev: Event<S, F>, sn: Serial, k: nat)
    requires k < |Polls(evs, sn)| && PollFate(evs, sn, k)
    requires var more := evs + [ev];
             && k < |Polls(more, sn)| && Polls(more, sn)[k] == Polls(evs, sn)[k]
             && PollTimes(more, sn)[k] == PollTimes(evs, sn)[k]
             && ClientOf(more, sn, Polls(evs, sn)[k]) == ClientOf(evs, sn, Polls(evs, sn)[k])
             && (k < |Statuses(evs, sn)| <==> k < |Statuses(more, sn)|)
             && (k < |Statuses(evs, sn)| ==> Statuses(more, sn)[k] == Statuses(evs, sn)[k]
                                             && StatusTimes(more, sn)[k] == StatusTimes(evs, sn)[k])
    requires k < |Statuses(evs, sn)| || ev != PollExpired(sn, Polls(evs, sn)[k])
    ensures PollFate(evs + [ev], sn, k)
  {
    var f, p := Polls(evs, sn)[k], PollTimes(evs, sn)[k];
    if k < |Statuses(evs, sn)| {
      ExpiredGrows(evs, ev, sn, f, p, AnswerTime(evs, sn, k));
    } else {
      ExpiredGrows(evs, ev, sn, f, p, |evs|);
    }
  }

  lemma OtherSerialFate<S(!new), F(!new)>(evs: seq<Event<S, F>>, ev: Event<S, F>, sn: Serial, k: nat)
    requires ev.sn != sn && k < |Polls(evs, sn)| && PollFate(evs, sn, k)
    ensures k < |Polls(evs + [ev], sn)| && PollFate(evs + [ev], sn, k)
  {
    assert (evs + [ev])[..|evs|] == evs;
    FateKept(evs, ev, sn, k);
  }

  lemma PostedFate<S(!new), F(!new)>(evs: seq<Event<S, F>>, sn: Serial, s: S, k: nat)
    requires DistinctPolls(evs) && k < |Polls(evs, sn)| && PollFate(evs, sn, k)
    ensures var more := evs + [Posted(sn, s)]; k < |Polls(more, sn)| && PollFate(more, sn, k)
  {
    var ev: Event<S, F> := Posted(sn, s);
    var more, fs, m := evs + [ev], Polls(evs, sn), |Statuses(evs, sn)|;
    assert more[..|evs|] == evs;
    ChannelStep(evs, ev, sn);
    AlwaysOneChannel(evs, sn);
    if m < |fs| {
      assert Queue(Run(evs).waiters, sn)[0] == fs[m];
      if k == m {
        ExpiredGrows(evs, ev, sn, fs[k], PollTimes(evs, sn)[k], |evs|);
        assert AnswerTime(more, sn, k) == |evs|;
      } else {
        if k < m { PollsApart(evs, sn, k, m); } else { PollsApart(evs, sn, m, k); }
        FateKept(evs, ev, sn, k);
      }
    } else {
      FateKept(evs, ev, sn, k);
    }
  }

  lemma PolledFate<S(!new), F(!new)>(evs: seq<Event<S, F>>, sn: Serial, f: F, k: nat)
    requires DistinctPolls(evs + [Polled(sn, f)]) && k <= |Polls(evs, sn)|
    requires k < |Polls(evs, sn)| ==> PollFate(evs, sn, k)
    ensures var more := evs + [Polled(sn, f)]; k < |Polls(more, sn)| && PollFate(more, sn, k)
  {
    var ev: Event<S, F> := Polled(sn, f);
    var more, fs := evs + [ev], Polls(evs, sn);
    assert more[..|evs|] == evs;
    ChannelStep(evs, ev, sn);
    AlwaysOneChannel(evs, sn);
    if k < |fs| {
      var p := PollTimes(evs, sn)[k];
      assert more[p] == evs[p] && more[|evs|] == ev && more[p] != more[|evs|];
      FateKept(evs, ev, sn, k);
    } else if k < |Statuses(evs, sn)| {
      assert Queue(Run(evs).happened, sn)[0] == Statuses(evs, sn)[k];
      assert AnswerTime(more, sn, k) == |evs|;
    } else {
      assert PollTimes(more, sn)[k] == |evs|;
    }
  }

  lemma ExpiredFate<S(!new), F(!new)>(evs: seq<Event<S, F>>, sn: Serial, g: F, k: nat)
    requires k < |Polls(evs, sn)| && PollFate(evs, sn, k)
    ensures var more := evs + [PollExpired(sn, g)]; k < |Polls(more, sn)| && PollFate(more, sn, k)
  {
    var ev: Event<S, F> := PollExpired(sn, g);
    var f := Polls(evs, sn)[k];
    assert (evs + [ev])[..|evs|] == evs;
    ChannelStep(evs, ev, sn);
    if k < |Statuses(evs, sn)| || f != g {
      FateKept(evs, ev, sn, k);
    } else {
      ExpiredGrows(evs, ev, sn, f, PollTimes(evs, sn)[k], |evs|);
    }
  }

  /** In every run with distinct polls, the fate of every poll of every node. */
  lemma {:induction false} EveryFate<S(!new), F(!new)>(evs: seq<Event<S, F>>, sn: Serial, k: nat)
    requires DistinctPolls(evs) && k < |Polls(evs, sn)|
    ensures PollFate(evs, sn, k)
  {
    var front, ev := evs[..|evs| - 1], evs[|evs| - 1];
    assert evs == front + [ev];
    if ev.sn != sn || !ev.Polled? || k < |Polls(front, sn)| {
      EveryFate(front, sn, k);
    }
    if ev.sn != sn {
      OtherSerialFate(front, ev, sn, k);
    } else {
      match ev
      case Posted(_, s) => PostedFate(front, sn, s, k);
      case Polled(_, f) => PolledFate(front, sn, f, k);
      case PollExpired(_, g) => ExpiredFate(front, sn, g, k);
    }
  }

  /** The k-th status since a reset is read by the k-th poll if and only if that poll's
      timeout did not go off between its coming in and the answer. */
  lemma StatusReadExactly<S(!new), F(!new)>(evs: seq<Event<S, F>>, sn: Serial, k: nat)
    requires DistinctPolls(evs) && k < |Polls(evs, sn)| && k < |Statuses(evs, sn)|
    ensures ClientOf(evs, sn, Polls(evs, sn)[k]) == Read(Statuses(evs, sn)[k])
            <==> !ExpiredBetween(evs, sn, Polls(evs, sn)[k], PollTimes(evs, sn)[k], AnswerTime(evs, sn, k))
  {
    EveryFate(evs, sn, k);
  }

  /** The k-th status has been given to a poll, the k-th, that has not read it. */
  ghost predicate Lost<S, F>(evs: seq<Event<S, F>>, sn: Serial, k: nat)
    requires k < |Statuses(evs, sn)|
  {
    k < |Polls(evs, sn)| && ClientOf(evs, sn, Polls(evs, sn)[k]) != Read(Statuses(evs, sn)[k])
  }

  /** A status is lost as it is posted if and only if some poll waits and the oldest one has
      given up, which whoever posts could see beforehand. */
  lemma LostAtPostExactly<S(!new), F(!new)>(evs: seq<Event<S, F>>, sn: Serial, s: S)
    requires DistinctPolls(evs)
    ensures var w, more := Queue(Run(evs).waiters, sn), evs + [Posted(sn, s)];
            && |Statuses(more, sn)| == |Statuses(evs, sn)| + 1
            && (Lost(more, sn, |Statuses(evs, sn)|) <==> w != [] && ClientOf(evs, sn, w[0]) == GaveUp)
  {
    var ev: Event<S, F> := Posted(sn, s);
    var more, fs, m := evs + [ev], Polls(evs, sn), |Statuses(evs, sn)|;
    assert more[..|evs|] == evs;
    ChannelStep(evs, ev, sn);
    AlwaysOneChannel(evs, sn);
    if m < |fs| {
      assert Queue(Run(evs).waiters, sn)[0] == fs[m];
      EveryFate(evs, sn, m);
    }
  }

  lemma WitnessRun<S(!new), F(!new)>(sn: Serial, gone: F, later: F, s: S) returns (evs: seq<Event<S, F>>)
    ensures evs == [Polled(sn, gone), PollExpired(sn, gone), Polled(sn, later), Posted(sn, s)]
    ensures Polls(evs, sn) == [gone, later] && Statuses(evs, sn) == [s]
    ensures PollTimes(evs, sn) == [0, 2] && StatusTimes(evs, sn) == [3]
  {
    var e0: seq<Event<S, F>> := [];
    var e1 := e0 + [Polled(sn, gone)];
    var e2 := e1 + [PollExpired(sn, gone)];
    var e3 := e2 + [Polled(sn, later)];
    evs := e3 + [Posted(sn, s)];
    ChannelStep(e0, Polled(sn, gone), sn);
    ChannelStep(e1, PollExpired(sn, gone), sn);
    ChannelStep(e2, Polled(sn, later), sn);
    ChannelStep(e3, Posted(sn, s), sn);
  }

  /** A run in which a status is lost while a later poll waits for it. */
  lemma LostWitness<S(!new), F(!new)>(sn: Serial, gone: F, later: F, s: S)
    requires gone != later
    ensures var evs := [Polled(sn, gone), PollExpired(sn, gone), Polled(sn, later), Posted(sn, s)];
            DistinctPolls(evs) && |Statuses(evs, sn)| == 1 && Lost(evs, sn, 0) && ClientOf(evs, sn, later) == Waiting
  {
    var evs := WitnessRun(sn, gone, later, s);
    assert ExpiredAt(evs, sn, gone, 1);
    EveryFate(evs, sn, 0);
    EveryFate(evs, sn, 1);
  }

  // ----- the handlers

  class StatusBoard<S, F> {
    var waiters: map<Serial, seq<F>>
    var happened: map<Serial, seq<S>>

    ghost function State(): Board<S, F>
      reads this
    {
      Board(waiters, happened)
    }

    constructor ()
      ensures State() == Board(map[], map[])
    {
      waiters, happened := map[], map[];
    }

    /** send_notification, and the delivery in the server's reading loop. */
    method SendNotification(sn: Serial, status: S) returns (answer: Answer<S, F>)
      modifies this
      ensures (State(), answer) == Post(old(State()), sn, status)
    {
      if sn in waiters && |waiters[sn]| > 0 {
        var f := waiters[sn][0];
        waiters := waiters[sn := waiters[sn][1..]];
        answer := Answer(f, status);
        if |waiters[sn]| == 0 {
          waiters := waiters - {sn};
          assert waiters == old(waiters) - {sn};
        }
      } else if sn in happened {
        happened := happened[sn := happened[sn] + [status]];
        answer := NoAnswer;
      } else {
        happened := happened[sn := [status]];
        assert [] + [status] == [status];
        answer := NoAnswer;
      }
    }

    /** OTAStatusReportingHandler.get, up to its waiting. */
    method Get(sn: Serial, poll: F) returns (answer: Answer<S, F>)
      modifies this
      ensures (State(), answer) == Poll(old(State()), sn, poll)
    {
      if sn in happened && |happened[sn]| > 0 {
        var s := happened[sn][0];
        happened := happened[sn := happened[sn][1..]];
        if |happened[sn]| == 0 {
          happened := happened - {sn};
          assert happened == old(happened) - {sn};
        }
        answer := Answer(poll, s);
      } else {
        if sn in waiters {
          waiters := waiters[sn := waiters[sn] + [poll]];
        } else {
          waiters := waiters[sn := [poll]];
          assert [] + [poll] == [poll];
        }
        answer := NoAnswer;
      }
    }

    /** The clearing at the start of a build. */
    method Clear(sn: Serial)
      modifies this
      ensures State() == Reset(old(State()), sn)
    {
      happened := happened[sn := []];
      waiters := waiters[sn := []];
    }
  }
}
