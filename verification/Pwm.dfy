/**
 * The PWM step planner and its timer interrupt
 * (esp8266_arduino/core_esp8266_wiring_pwm.c). The bit masks of pins are sets.
 */
module Pwm {
  import opened PwmSort

  const PWMRANGE: nat := 1023
  const PINS: nat := 17

  // ----- the plan

  /** The nonzero values of the active pins below n, in pin order. */
  function Listed(mask: set<nat>, values: seq<nat>, n: nat): (s: seq<nat>)
    requires n <= |values|
    ensures |s| <= n
  {
    if n == 0 then []
    else if n - 1 in mask && values[n - 1] != 0 then Listed(mask, values, n - 1) + [values[n - 1]]
    else Listed(mask, values, n - 1)
  }

  lemma {:induction false} ListedValues(mask: set<nat>, values: seq<nat>, n: nat, v: nat)
    requires n <= |values|
    ensures v in Listed(mask, values, n) <==> v != 0 && exists i: nat :: i < n && i in mask && values[i] == v
  {
    if n > 0 { ListedValues(mask, values, n - 1, v); }
  }

  /** The pins of a value. */
  ghost predicate PinsOf(mask: set<nat>, values: seq<nat>, v: nat, m: set<nat>) {
    forall i: nat :: i in m <==> i < |values| && i in mask && values[i] == v
  }

  /** levels are the distinct values of the active pins and PWMRANGE, increasing; steps their
      differences; and masks the pins to lower at each but the last. */
  ghost predicate Planned(mask: set<nat>, values: seq<nat>, levels: seq<nat>, steps: seq<nat>, masks: seq<set<nat>>) {
    && DistinctValues(Listed(mask, values, |values|) + [PWMRANGE], levels)
    && levels != [] && levels[|levels| - 1] == PWMRANGE
    && Differences(levels, steps)
    && |masks| + 1 == |levels|
    && forall k: nat :: k < |masks| ==> PinsOf(mask, values, levels[k], masks[k])
  }

  /** The level before level k, counting from zero. */
  function Below(levels: seq<nat>, k: nat): nat
    requires k <= |levels|
  {
    if k == 0 then 0 else levels[k - 1]
  }

  ghost predicate Differences(levels: seq<nat>, steps: seq<nat>) {
    |steps| == |levels| && forall k: nat :: k < |levels| ==> steps[k] + Below(levels, k) == levels[k]
  }

  function Sum(steps: seq<nat>, n: nat): nat
    requires n <= |steps|
  {
    if n == 0 then 0 else Sum(steps, n - 1) + steps[n - 1]
  }

  lemma {:induction false} SumIsLevel(levels: seq<nat>, steps: seq<nat>, k: nat)
    requires Differences(levels, steps) && k < |levels|
    ensures Sum(steps, k + 1) == levels[k]
  {
    assert steps[k] + Below(levels, k) == levels[k];
    if k > 0 { SumIsLevel(levels, steps, k - 1); }
  }

  /** The steps of a plan add up to the whole range. */
  lemma StepsSum(mask: set<nat>, values: seq<nat>, levels: seq<nat>, steps: seq<nat>, masks: seq<set<nat>>)
    requires Planned(mask, values, levels, steps, masks)
    ensures Sum(steps, |steps|) == PWMRANGE
  {
    SumIsLevel(levels, steps, |levels| - 1);
  }

  /** No pin is lowered twice. */
  lemma MasksDisjoint(mask: set<nat>, values: seq<nat>, levels: seq<nat>, steps: seq<nat>, masks: seq<set<nat>>,
                      j: nat, k: nat)
    requires Planned(mask, values, levels, steps, masks) && j < k < |masks|
    ensures masks[j] !! masks[k]
  {
    assert PinsOf(mask, values, levels[j], masks[j]) && PinsOf(mask, values, levels[k], masks[k]);
  }

  /** The pin has been lowered by one of the first k steps. */
  ghost predicate Lowered(masks: seq<set<nat>>, k: nat, pin: nat)
    requires k <= |masks|
  {
    exists j: nat :: j < k && pin in masks[j]
  }

  /** How long a pin raised at the start has been high once k steps are over. */
  ghost function Held(steps: seq<nat>, masks: seq<set<nat>>, pin: nat, k: nat): nat
    requires k <= |masks| + 1 && |steps| == |masks| + 1
  {
    if k == 0 then 0 else Held(steps, masks, pin, k - 1) + if Lowered(masks, k - 1, pin) then 0 else steps[k - 1]
  }

  lemma {:induction false} HeldWhileHigh(steps: seq<nat>, masks: seq<set<nat>>, pin: nat, k: nat)
    requires k <= |masks| + 1 && |steps| == |masks| + 1
    requires k > 0 ==> !Lowered(masks, k - 1, pin)
    ensures Held(steps, masks, pin, k) == Sum(steps, k)
  {
    if k > 0 {
      assert k > 1 ==> !Lowered(masks, k - 2, pin);
      HeldWhileHigh(steps, masks, pin, k - 1);
    }
  }

  lemma {:induction false} HeldOnceLow(steps: seq<nat>, masks: seq<set<nat>>, pin: nat, m: nat, k: nat)
    requires m < |masks| && m + 1 <= k <= |masks| + 1 && |steps| == |masks| + 1 && pin in masks[m]
    ensures Held(steps, masks, pin, k) == Held(steps, masks, pin, m + 1)
  {
    if k > m + 1 {
      HeldOnceLow(steps, masks, pin, m, k - 1);
      assert Lowered(masks, k - 1, pin);
    }
  }

  /** A pin is held high for exactly its value in every cycle; one with value zero that is
      still active is held for the whole range. */
  lemma PinHeldForValue(mask: set<nat>, values: seq<nat>, levels: seq<nat>, steps: seq<nat>, masks: seq<set<nat>>,
                        pin: nat)
    requires Planned(mask, values, levels, steps, masks) && pin < |values| && pin in mask && values[pin] <= PWMRANGE
    ensures Held(steps, masks, pin, |steps|) == if values[pin] == 0 then PWMRANGE else values[pin]
  {
    var v := values[pin];
    forall k: nat | k < |masks| ensures pin in masks[k] <==> levels[k] == v {
      assert PinsOf(mask, values, levels[k], masks[k]);
    }
    NoZeroLevel(mask, values, levels);
    if v == 0 || v == PWMRANGE {
      NeverLowered(levels, steps, masks, pin);
    } else {
      var m := LevelOf(mask, values, levels, pin);
      LoweredAt(levels, steps, masks, pin, m);
    }
  }

  /** The level of an active pin's value. */
  lemma LevelOf(mask: set<nat>, values: seq<nat>, levels: seq<nat>, pin: nat) returns (m: nat)
    requires DistinctValues(Listed(mask, values, |values|) + [PWMRANGE], levels) && levels != []
    requires levels[|levels| - 1] == PWMRANGE
    requires pin < |values| && pin in mask && values[pin] != 0 && values[pin] != PWMRANGE
    ensures m + 1 < |levels| && levels[m] == values[pin]
  {
    ListedValues(mask, values, |values|, values[pin]);
    assert values[pin] in levels;
    m :| m < |levels| && levels[m] == values[pin];
  }

  lemma NeverLowered(levels: seq<nat>, steps: seq<nat>, masks: seq<set<nat>>, pin: nat)
    requires Differences(levels, steps) && |masks| + 1 == |levels| && levels[|levels| - 1] == PWMRANGE
    requires forall k: nat :: k < |masks| ==> pin !in masks[k]
    ensures Held(steps, masks, pin, |steps|) == PWMRANGE
  {
    HeldWhileHigh(steps, masks, pin, |steps|);
    SumIsLevel(levels, steps, |levels| - 1);
  }

  /** A pin in the mask of one level only is held up to that level. */
  lemma LoweredAt(levels: seq<nat>, steps: seq<nat>, masks: seq<set<nat>>, pin: nat, m: nat)
    requires Differences(levels, steps) && Increasing(levels) && m < |masks| && |masks| + 1 == |levels|
    requires forall k: nat :: k < |masks| ==> (pin in masks[k] <==> levels[k] == levels[m])
    ensures Held(steps, masks, pin, |steps|) == levels[m]
  {
    assert pin in masks[m];
    NotLoweredBefore(levels, masks, pin, m);
    HeldUpTo(steps, masks, pin, m);
    SumIsLevel(levels, steps, m);
  }

  lemma HeldUpTo(steps: seq<nat>, masks: seq<set<nat>>, pin: nat, m: nat)
    requires m < |masks| && |steps| == |masks| + 1 && pin in masks[m] && !Lowered(masks, m, pin)
    ensures Held(steps, masks, pin, |steps|) == Sum(steps, m + 1)
  {
    HeldWhileHigh(steps, masks, pin, m + 1);
    HeldOnceLow(steps, masks, pin, m, |steps|);
  }

  lemma NotLoweredBefore(levels: seq<nat>, masks: seq<set<nat>>, pin: nat, m: nat)
    requires Increasing(levels) && m < |masks| && |masks| + 1 == |levels|
    requires forall k: nat :: k < |masks| ==> (pin in masks[k] <==> levels[k] == levels[m])
    ensures !Lowered(masks, m, pin)
  {
    forall k: nat | k < m ensures pin !in masks[k] {
      assert levels[k] < levels[m];
    }
  }

  lemma NoZeroLevel(mask: set<nat>, values: seq<nat>, levels: seq<nat>)
    requires DistinctValues(Listed(mask, values, |values|) + [PWMRANGE], levels)
    ensures forall k: nat :: k < |levels| ==> levels[k] != 0
  {
    ListedValues(mask, values, |values|, 0);
    forall k: nat | k < |levels| ensures levels[k] != 0 {
      assert levels[k] in levels;
    }
  }

  // ----- the planner

  class Generator {
    var mask: set<nat>
    const values: array<nat>
    var stepsLen: nat
    const steps: array<nat>
    const masks: array<set<nat>>
    ghost var levels: seq<nat>
    // the statics of the interrupt, and the outputs it drives
    var currentStep: nat
    var stepCount: nat
    var lowering: seq<set<nat>>
    var high: set<nat>

    ghost predicate Valid()
      reads this`mask, values
    {
      && values.Length == PINS && steps.Length == PINS && masks.Length == PINS && values != steps
      && (forall i :: i in mask ==> i < PINS)
      && (forall i :: 0 <= i < PINS ==> values[i] <= PWMRANGE)
    }

    /** The plan in the shared arrays is the one for the pins. */
    ghost predicate Ready()
      reads this`mask, this`stepsLen, this`levels, values, steps, masks
    {
      && Valid()
      && (mask == {} ==> stepsLen == 0)
      && (mask != {} ==> stepsLen < PINS && Planned(mask, values[..], levels, steps[..stepsLen + 1], masks[..stepsLen]))
    }

    /** The planner's arrays have room for the pins in use. */
    ghost predicate Room()
      requires Valid()
      reads this`mask, values
    {
      |Listed(mask, values[..], PINS)| <= 16
    }

    /** pwm_get_mask. */
    method GetMask(value: nat) returns (m: set<nat>)
      requires Valid()
      ensures PinsOf(mask, values[..], value, m)
    {
      m := {};
      for i := 0 to PINS
        invariant forall p: nat :: p in m <==> p < i && p in mask && values[p] == value
      {
        if i in mask && values[i] == value {
          m := m + {i};
        }
      }
    }

    /** The active values and the full range, in pin order. */
    method ListValues(temp: array<nat>) returns (n: nat)
      requires Valid() && Room() && temp.Length == PINS && temp != values
      modifies temp
      ensures n <= PINS && temp[..n] == Listed(mask, values[..], PINS) + [PWMRANGE]
    {
      n := 0;
      for i := 0 to PINS
        invariant n <= i && temp[..n] == Listed(mask, values[..], i) && Valid() && Room()
      {
        ListedShorter(mask, values[..], i + 1, PINS);
        if i in mask && values[i] != 0 {
          temp[n] := values[i];
          n := n + 1;
        }
      }
      temp[n] := PWMRANGE;
      n := n + 1;
    }

    /** Differences from the top down, in place. */
    method Subtract(temp: array<nat>, n: nat)
      requires n < temp.Length && Increasing(temp[..n + 1])
      modifies temp
      ensures Differences(old(temp[..n + 1]), temp[..n + 1])
    {
      ghost var t := temp[..n + 1];
      for i := n downto 0
        invariant forall k :: 0 <= k <= i ==> temp[k] == t[k]
        invariant forall k :: i < k <= n ==> temp[k] == t[k] - t[k - 1]
      {
        temp[i + 1] := temp[i + 1] - temp[i];
      }
    }

    /** Masks for the levels below the full range. */
    method MasksFor(temp: array<nat>, n: nat, temps: array<set<nat>>)
      requires Valid() && n <= temp.Length && n <= temps.Length && temps != masks
      modifies temps
      ensures forall k: nat :: k < n ==> PinsOf(mask, values[..], temp[k], temps[k])
    {
      for i := 0 to n
        invariant forall k: nat :: k < i ==> PinsOf(mask, values[..], temp[k], temps[k])
      {
        temps[i] := GetMask(temp[i]);
      }
    }

    /** The levels in temp, sorted and counted. */
    method Levels(temp: array<nat>) returns (n: nat)
      requires Valid() && Room() && temp.Length == PINS && temp != values
      modifies temp
      ensures n < PINS
      ensures DistinctValues(Listed(mask, values[..], PINS) + [PWMRANGE], temp[..n + 1]) && temp[n] == PWMRANGE
    {
      var listed := ListValues(temp);
      var count := SortArray(temp, listed);
      n := count - 1;
      RangeIsLast(mask, values[..], temp[..n + 1]);
    }

    /** The plan, in temporaries. */
    method Plan(temp: array<nat>, temps: array<set<nat>>) returns (n: nat, ghost t: seq<nat>)
      requires Valid() && Room() && temp.Length == PINS && temps.Length == PINS && temp != values && temps != masks
      modifies temp, temps
      ensures n < PINS && Planned(mask, values[..], t, temp[..n + 1], temps[..n])
    {
      n := Levels(temp);
      t := temp[..n + 1];
      MasksFor(temp, n, temps);
      forall k: nat | k < n ensures PinsOf(mask, values[..], t[k], temps[..n][k]) {
        assert PinsOf(mask, values[..], temp[k], temps[k]);
      }
      Subtract(temp, n);
    }

    /** The plan copied to where the interrupt reads it. */
    method Publish(temp: array<nat>, temps: array<set<nat>>, n: nat, ghost t: seq<nat>)
      requires Valid() && temp.Length == PINS && temps.Length == PINS && temp != steps && temps != masks && mask != {}
      requires n < PINS && Planned(mask, values[..], t, temp[..n + 1], temps[..n])
      modifies this`stepsLen, this`levels, steps, masks
      ensures Ready()
    {
      ghost var vs, ss, ms := values[..], temp[..n + 1], temps[..n];
      stepsLen := n;
      levels := t;
      forall k | 0 <= k <= n {
        steps[k] := temp[k];
      }
      forall k | 0 <= k < n {
        masks[k] := temps[k];
      }
      assert steps[..n + 1] == ss;
      assert masks[..n] == ms;
      assert values[..] == vs;
      assert Valid();
    }

    /** prep_pwm_steps: the plan is made in temporaries and copied out at the end. */
    method Prep()
      requires Valid() && Room()
      modifies this`stepsLen, this`levels, steps, masks
      ensures Ready()
    {
      if mask == {} {
        stepsLen := 0;
        return;
      }
      var temp := new nat[PINS];
      var temps := new set<nat>[PINS];
      var n, t := Plan(temp, temps);
      Publish(temp, temps, n, t);
    }

    /** __analogWrite for the planner: value zero takes the pin out, anything else puts it in
        with the value modulo PWMRANGE + 1. */
    method AnalogWrite(pin: nat, value: nat)
      requires Valid() && pin < PINS
      requires var m := if value == 0 then mask - {pin} else mask + {pin};
               var v := if value == 0 then values[pin] else value % (PWMRANGE + 1);
               |Listed(m, values[..][pin := v], PINS)| <= 16
      modifies this`mask, this`stepsLen, this`levels, values, steps, masks
      ensures Ready()
      ensures mask == if value == 0 then old(mask) - {pin} else old(mask) + {pin}
      ensures values[..] == old(values[..])[pin := if value == 0 then old(values[pin]) else value % (PWMRANGE + 1)]
    {
      if value == 0 {
        mask := mask - {pin};
        assert values[..] == old(values[..])[pin := old(values[pin])];
        Prep();
        return;
      }
      mask := mask + {pin};
      values[pin] := value % (PWMRANGE + 1);
      Prep();
    }

    // ----- the interrupt

    /** The arrays hold a plan of some kind, which is all that the interrupt needs of it. */
    ghost predicate Sized()
      reads this`stepsLen
    {
      values.Length == PINS && steps.Length == PINS && masks.Length == PINS && stepsLen < PINS
    }

    /** Between two interrupts of a cycle: after the first k steps of it. */
    ghost predicate During(k: nat)
      reads this`mask, this`stepsLen, this`currentStep, this`stepCount, this`lowering, this`high, masks
    {
      && Sized() && mask != {}
      && Stage(mask, masks[..stepsLen], k, currentStep, stepCount, lowering, high)
    }

    /** pwm_timer_isr: lowers the next group of pins, or starts the next cycle with all of
        them raised. The result is what timer1 is loaded with, in units of the multiplier. */
    method Isr() returns (wait: nat)
      requires Sized() && stepCount <= |lowering| && stepCount < PINS
      requires currentStep < stepCount ==> During(currentStep)
      modifies this`currentStep, this`stepCount, this`lowering, this`high
      ensures old(currentStep) < old(stepCount) ==> During(old(currentStep) + 1) && wait == steps[old(currentStep) + 1]
      ensures old(currentStep) >= old(stepCount) && mask != {} ==> During(0) && wait == steps[0]
      ensures old(currentStep) >= old(stepCount) && mask == {} ==>
                wait == 0 && currentStep == 0 && stepCount == 0 && high == old(high)
    {
      if currentStep < stepCount {
        wait := LowerNext();
      } else {
        currentStep := 0;
        stepCount := 0;
        if mask == {} {
          return 0;
        }
        wait := StartCycle();
      }
    }

    method LowerNext() returns (wait: nat)
      requires currentStep < stepCount && During(currentStep)
      modifies this`currentStep, this`high
      ensures During(old(currentStep) + 1) && wait == steps[old(currentStep) + 1]
    {
      ghost var ms := masks[..stepsLen];
      StageOn(mask, ms, currentStep, stepCount, lowering, high);
      high := high - lowering[currentStep];
      currentStep := currentStep + 1;
      assert masks[..stepsLen] == ms;
      wait := steps[currentStep];
    }

    method StartCycle() returns (wait: nat)
      requires Sized() && mask != {} && currentStep == 0
      modifies this`stepCount, this`lowering, this`high
      ensures During(0) && wait == steps[0]
    {
      ghost var ms := masks[..stepsLen];
      AllHigh(mask, ms);
      high := mask;
      wait := steps[0];
      stepCount := stepsLen;
      lowering := masks[..stepCount];
      assert masks[..stepsLen] == ms;
    }

    /** The time booked for a pin and in all when step k of a cycle begins. */
    ghost predicate Booked(k: nat, pin: nat, held: nat, total: nat, wait: nat)
      reads this`mask, this`stepsLen, this`currentStep, this`stepCount, this`lowering, this`high, steps, masks
    {
      During(k) && Books(steps[..stepsLen + 1], masks[..stepsLen], pin, k, held, total, wait)
    }

    /** A step of the cycle passes, and the interrupt ends it. */
    method PassStep(k: nat, pin: nat, held: nat, total: nat, wait: nat) returns (held': nat, total': nat, wait': nat)
      requires pin in mask && k < stepsLen && Booked(k, pin, held, total, wait)
      modifies this`currentStep, this`stepCount, this`lowering, this`high
      ensures Booked(k + 1, pin, held', total', wait')
    {
      ghost var ss, ms, n := steps[..stepsLen + 1], masks[..stepsLen], stepsLen;
      BookOn(ss, ms, mask, high, pin, k, held, total, wait);
      held' := held + if pin in high then wait else 0;
      total' := total + wait;
      BooksOn(ss, ms, pin, k, held', total');
      wait' := Isr();
      assert During(k + 1) && stepsLen == n;
      assert steps[..n + 1] == ss && masks[..n] == ms && wait' == ss[k + 1];
    }

    /** One cycle of the timer, from the interrupt that raises the pins to the end of its last
        step: how long a pin was high, and how long it all took. */
    method Cycle(pin: nat) returns (held: nat, total: nat)
      requires Ready() && mask != {} && pin in mask
      requires currentStep >= stepCount && stepCount <= |lowering| && stepCount < PINS
      modifies this`currentStep, this`stepCount, this`lowering, this`high
      ensures total == PWMRANGE
      ensures held == if values[pin] == 0 then PWMRANGE else values[pin]
      ensures Ready() && During(stepsLen) && currentStep == stepCount
    {
      var wait := Isr();
      held, total := 0, 0;
      assert Booked(0, pin, held, total, wait);
      for k := 0 to stepsLen
        invariant Booked(k, pin, held, total, wait)
      {
        held, total, wait := PassStep(k, pin, held, total, wait);
      }
      held, total := LastStep(pin, held, total, wait);
    }

    method LastStep(pin: nat, held: nat, total: nat, wait: nat) returns (held': nat, total': nat)
      requires Ready() && pin in mask && Booked(stepsLen, pin, held, total, wait)
      ensures total' == PWMRANGE && held' == if values[pin] == 0 then PWMRANGE else values[pin]
    {
      ghost var ss, ms := steps[..stepsLen + 1], masks[..stepsLen];
      BookOn(ss, ms, mask, high, pin, stepsLen, held, total, wait);
      held' := held + if pin in high then wait else 0;
      total' := total + wait;
      StepsSum(mask, values[..], levels, ss, ms);
      PinHeldForValue(mask, values[..], levels, ss, ms, pin);
    }
  }

  /** The statics and outputs after the first k steps of a cycle over the masks ms. */
  ghost predicate Stage(mask: set<nat>, ms: seq<set<nat>>, k: nat, currentStep: nat, stepCount: nat,
                        lowering: seq<set<nat>>, high: set<nat>)
  {
    && k <= |ms|
    && currentStep == k && stepCount == |ms| && lowering == ms
    && high == StillHigh(mask, ms, k)
  }

  lemma StageOn(mask: set<nat>, ms: seq<set<nat>>, k: nat, stepCount: nat, lowering: seq<set<nat>>, high: set<nat>)
    requires Stage(mask, ms, k, k, stepCount, lowering, high) && k < stepCount
    ensures k < |lowering| && Stage(mask, ms, k + 1, k + 1, stepCount, lowering, high - lowering[k])
  {
    LowerOneMore(ms, k, mask);
  }

  /** One more step of a cycle in the books. */
  lemma BookOn(ss: seq<nat>, ms: seq<set<nat>>, mask: set<nat>, high: set<nat>, pin: nat, k: nat,
               held: nat, total: nat, wait: nat)
    requires pin in mask && k <= |ms| && high == StillHigh(mask, ms, k) && Books(ss, ms, pin, k, held, total, wait)
    ensures held + (if pin in high then wait else 0) == Held(ss, ms, pin, k + 1) && total + wait == Sum(ss, k + 1)
  {
    assert pin in high <==> !Lowered(ms, k, pin);
  }

  lemma BooksOn(ss: seq<nat>, ms: seq<set<nat>>, pin: nat, k: nat, held: nat, total: nat)
    requires k < |ms| && |ss| == |ms| + 1 && held == Held(ss, ms, pin, k + 1) && total == Sum(ss, k + 1)
    ensures Books(ss, ms, pin, k + 1, held, total, ss[k + 1])
  {
  }

  /** How long a pin was high, and how long it all took, when step k begins, and the time step
      k takes. */
  ghost predicate Books(ss: seq<nat>, ms: seq<set<nat>>, pin: nat, k: nat, held: nat, total: nat, wait: nat) {
    && k <= |ms| && |ss| == |ms| + 1
    && held == Held(ss, ms, pin, k) && total == Sum(ss, k) && wait == ss[k]
  }

  /** The pins not yet lowered. */
  ghost function StillHigh(mask: set<nat>, masks: seq<set<nat>>, k: nat): set<nat>
    requires k <= |masks|
  {
    set p | p in mask && !Lowered(masks, k, p)
  }

  lemma LowerOneMore(masks: seq<set<nat>>, k: nat, mask: set<nat>)
    requires k < |masks|
    ensures StillHigh(mask, masks, k) - masks[k] == StillHigh(mask, masks, k + 1)
  {
    forall p ensures Lowered(masks, k + 1, p) <==> Lowered(masks, k, p) || p in masks[k] {
      if Lowered(masks, k + 1, p) {
        var j: nat :| j < k + 1 && p in masks[j];
      }
    }
  }

  lemma AllHigh(mask: set<nat>, masks: seq<set<nat>>)
    ensures StillHigh(mask, masks, 0) == mask
  {
    assert forall p :: !Lowered(masks, 0, p);
  }

  /** The full range is above every value, so it comes last. */
  lemma RangeIsLast(mask: set<nat>, values: seq<nat>, levels: seq<nat>)
    requires forall i :: 0 <= i < |values| ==> values[i] <= PWMRANGE
    requires DistinctValues(Listed(mask, values, |values|) + [PWMRANGE], levels) && levels != []
    ensures levels[|levels| - 1] == PWMRANGE
  {
    var s := Listed(mask, values, |values|) + [PWMRANGE];
    assert s[|s| - 1] == PWMRANGE;
    assert PWMRANGE in levels;
    assert levels[|levels| - 1] in levels;
    ListedValues(mask, values, |values|, levels[|levels| - 1]);
  }

  lemma {:induction false} ListedShorter(mask: set<nat>, values: seq<nat>, m: nat, n: nat)
    requires m <= n <= |values|
    ensures |Listed(mask, values, m)| <= |Listed(mask, values, n)|
  {
    if m < n { ListedShorter(mask, values, m, n - 1); }
  }
}
