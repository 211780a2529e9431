/** The statistics counters: the stats observer's parse/reset step, the
    `animateCounter` interval and the 'animated' guard. */
module StatCounter {
  import opened Text

  /** The interval period of `animateCounter`, in milliseconds. */
  const FrameMillis: nat := 16
  /** The default `duration` of `animateCounter`, the only one the page uses. */
  const DefaultDuration: nat := 2000

  /** The suffix chosen when a counter is reset. */
  datatype Suffix = Plus | Percent | NoSuffix

  /** A JavaScript number produced by `parseInt`: a natural number or NaN. */
  datatype Number = Num(value: nat) | NaN

  /** '+' wins over '%'; a text with neither has no suffix. */
  function SuffixOf(text: string): (s: Suffix)
    ensures s == NoSuffix <==> '+' !in text && '%' !in text
    ensures forall c :: c in SuffixText(s) ==> c in text
  {
    if '+' in text then Plus else if '%' in text then Percent else NoSuffix
  }

  function SuffixText(s: Suffix): string {
    match s
    case Plus => "+"
    case Percent => "%"
    case NoSuffix => ""
  }

  /** `parseInt(text.replace(/\D/g, ''))`: NaN when the text has no digit. */
  function ParseStat(text: string): (r: Number)
    ensures r.NaN? <==> NoDigits(text)
  {
    var digits := KeepDigits(text);
    KeepDigitsEmpty(text);
    if digits == [] then NaN else Num(DecimalValue(digits))
  }

  /** The text the observer writes before starting the animation. */
  function ResetText(text: string): (r: string)
    ensures ParseStat(r) == Num(0)
    ensures TickSuffix(r) == RunSuffix(SuffixOf(text))
  {
    ParseDisplayed(0, SuffixText(SuffixOf(text)));
    assert NatToString(0) == "0";
    "0" + SuffixText(SuffixOf(text))
  }

  /** The suffix each tick appends, re-chosen from the element's current text. */
  function TickSuffix(current: string): (r: string)
    ensures |r| == 1 && NoDigits(r)
    ensures r == "+" <==> '+' in current
  {
    if '+' in current then "+" else "%"
  }

  /** The suffix every tick of a run reset with suffix `s` appends: a '%'
      unless the reset wrote a '+'. */
  function RunSuffix(s: Suffix): string {
    if s == Plus then "+" else "%"
  }

  /** `target / (duration / 16)`, in exact arithmetic. */
  function Increment(target: nat, duration: nat): (r: real)
    requires duration > 0
    ensures r >= 0.0
  {
    target as real / (duration as real / FrameMillis as real)
  }

  /** The accumulator `start` after `ticks` executions of `start += increment`. */
  function StartAfter(target: nat, duration: nat, ticks: nat): (r: real)
    requires duration > 0
    ensures r >= 0.0
  {
    if ticks == 0 then 0.0 else StartAfter(target, duration, ticks - 1) + Increment(target, duration)
  }

  /** The test `start >= target` that ends the animation. */
  predicate Reached(target: nat, duration: nat, ticks: nat): (b: bool)
    requires duration > 0
    ensures b && ticks == 0 ==> target == 0
    ensures target == 0 ==> b
  {
    StartAfter(target, duration, ticks) >= target as real
  }

  /** The number tick number `ticks` shows: `Math.floor(start)`, or the target
      itself once it is reached. */
  function Shown(target: nat, duration: nat, ticks: nat): (r: nat)
    requires duration > 0
    ensures r <= target
    ensures r == target <==> Reached(target, duration, ticks)
  {
    if Reached(target, duration, ticks) then target else StartAfter(target, duration, ticks).Floor
  }

  /** The text of a counter reset with suffix `s`, after `ticks` ticks. */
  function FrameText(target: Number, duration: nat, s: Suffix, ticks: nat): (r: string)
    requires duration > 0
    ensures ticks == 0 ==> ParseStat(r) == Num(0)
    ensures ticks > 0 && target.NaN? ==> ParseStat(r) == NaN
    ensures target.Num? ==> ParseStat(r) == Num(Shown(target.value, duration, ticks))
  {
    if ticks == 0 then
      ParseDisplayed(0, SuffixText(s));
      assert NatToString(0) == "0";
      "0" + SuffixText(s)
    else match target
      case NaN =>
        KeepDigitsOfNonDigits("NaN" + RunSuffix(s));
        "NaN" + RunSuffix(s)
      case Num(t) =>
        ParseDisplayed(Shown(t, duration, ticks), RunSuffix(s));
        NatToString(Shown(t, duration, ticks)) + RunSuffix(s)
  }

  /** Whether the interval is still set after `ticks` ticks. A NaN target
      never satisfies `start >= target`, so its interval is never cleared. */
  predicate TimerSet(target: Number, duration: nat, ticks: nat): (b: bool)
    requires duration > 0
    ensures !b ==> target.Num? && ticks > 0 && Shown(target.value, duration, ticks) == target.value
    ensures b && target.Num? ==> Shown(target.value, duration, ticks) < target.value || ticks == 0
  {
    ticks == 0 || target.NaN? || !Reached(target.value, duration, ticks)
  }

  // ---------------------------------------------------------------------
  // Parsing and resetting
  // ---------------------------------------------------------------------

  /** The parsed target is the number written by all the text's digits, in
      order, with every other character dropped ("1,000+" gives 1000); a text
      without digits gives NaN. Any text is digit runs separated by digit-free
      runs, so this covers every input. */
  lemma ParseStatDigits(seps: seq<string>, runs: seq<string>)
    requires |seps| == |runs| + 1
    requires forall i :: 0 <= i < |seps| ==> NoDigits(seps[i])
    requires forall i :: 0 <= i < |runs| ==> AllDigits(runs[i])
    ensures
      var digits := Concat(runs);
      AllDigits(digits) &&
      ParseStat(Interleave(seps, runs)) == if digits == [] then NaN else Num(DecimalValue(digits))
  {
    KeepDigitsInterleave(seps, runs);
  }

  /** "1,000+" parses to 1000. */
  lemma ParseStatSeparatedExample()
    ensures ParseStat("1,000+") == Num(1000)
  {
    ParseStatDigits(["", ",", "+"], ["1", "000"]);
    assert Interleave(["", ",", "+"], ["1", "000"]) == "1,000+";
    assert Concat(["1", "000"]) == "1000";
    assert DecimalValue("1") == 1;
    assert "10"[..1] == "1";
    assert DecimalValue("10") == 10;
    assert "100"[..2] == "10";
    assert DecimalValue("100") == 100;
    assert "1000"[..3] == "100";
    assert DecimalValue("1000") == 1000;
  }

  /** A displayed counter text parses back to the number it shows. */
  lemma {:induction false} ParseDisplayed(n: nat, suffix: string)
    requires NoDigits(suffix)
    ensures ParseStat(NatToString(n) + suffix) == Num(n)
  {
    var digits := NatToString(n);
    KeepDigitsAppend(digits, suffix);
    KeepDigitsOfDigits(digits);
    KeepDigitsOfNonDigits(suffix);
    assert KeepDigits(digits + suffix) == digits + [];
    assert digits + [] == digits;
    DecimalValueOfNatToString(n);
  }

  /** After the reset the display is "0" and then '+' if the original text has
      a '+', otherwise '%' if it has a '%', otherwise nothing. */
  lemma ResetTextSuffix(text: string)
    ensures ResetText(text) ==
      if '+' in text then "0+" else if '%' in text then "0%" else "0"
    ensures ParseStat(ResetText(text)) == Num(0)
  {
    ParseDisplayed(0, SuffixText(SuffixOf(text)));
    assert NatToString(0) == "0";
  }

  // ---------------------------------------------------------------------
  // The per-tick suffix
  // ---------------------------------------------------------------------

  /** The suffix re-read on each tick is the run's suffix: '+' stays '+',
      '%' stays '%', and a counter reset without suffix gets '%'. */
  lemma TickSuffixOfFrame(target: Number, duration: nat, s: Suffix, ticks: nat)
    requires duration > 0
    ensures TickSuffix(FrameText(target, duration, s, ticks)) == RunSuffix(s)
  {
  }

  // ---------------------------------------------------------------------
  // The accumulator and the end of the run
  // ---------------------------------------------------------------------

  /** `start` after k ticks is k times the increment. */
  lemma {:induction false} StartAfterIsLinear(target: nat, duration: nat, ticks: nat)
    requires duration > 0
    ensures StartAfter(target, duration, ticks) == ticks as real * Increment(target, duration)
  {
    if ticks > 0 {
      StartAfterIsLinear(target, duration, ticks - 1);
    }
  }

  /** The accumulator never decreases. */
  lemma {:induction false} StartAfterMonotone(target: nat, duration: nat, j: nat, k: nat)
    requires duration > 0 && j <= k
    ensures StartAfter(target, duration, j) <= StartAfter(target, duration, k)
  {
    if j < k {
      StartAfterMonotone(target, duration, j, k - 1);
    }
  }

  /** For a positive target the run ends exactly at the first tick k with
      16 * k >= duration. */
  lemma ReachedIffEnoughTicks(target: nat, duration: nat, ticks: nat)
    requires duration > 0 && target > 0
    ensures Reached(target, duration, ticks) <==> FrameMillis * ticks >= duration
  {
    StartAfterIsLinear(target, duration, ticks);
    var q := duration as real / FrameMillis as real;
    var inc := Increment(target, duration);
    assert inc * q == target as real;
    ScaleCompare(StartAfter(target, duration, ticks), target as real, ticks as real, q, inc);
    assert ticks as real >= q <==> FrameMillis * ticks >= duration;
  }

  /** Two multiples of the same positive number compare as their factors. */
  lemma ScaleCompare(x: real, y: real, m: real, n: real, a: real)
    requires a > 0.0 && x == m * a && y == n * a
    ensures x >= y <==> m >= n
  {
  }

  /** With the default duration a positive target is reached on tick 125 and
      on no earlier tick. */
  lemma DefaultRunLength(target: nat, ticks: nat)
    requires target > 0
    ensures Reached(target, DefaultDuration, ticks) <==> ticks >= 125
  {
    ReachedIffEnoughTicks(target, DefaultDuration, ticks);
  }

  /** A zero target is reached on the first tick. */
  lemma ZeroTargetFirstTick(duration: nat)
    requires duration > 0
    ensures Reached(0, duration, 1) && Shown(0, duration, 1) == 0
    ensures !TimerSet(Num(0), duration, 1)
  {
  }

  /** Once reached, the target stays reached. */
  lemma ReachedMonotone(target: nat, duration: nat, j: nat, k: nat)
    requires duration > 0 && j <= k && Reached(target, duration, j)
    ensures Reached(target, duration, k)
  {
    StartAfterMonotone(target, duration, j, k);
  }

  /** While running, every shown number is strictly below the target. */
  lemma ShownBelowTarget(target: nat, duration: nat, ticks: nat)
    requires duration > 0 && !Reached(target, duration, ticks)
    ensures Shown(target, duration, ticks) < target
  {
  }

  /** The shown numbers never decrease, up to and including the final snap. */
  lemma ShownMonotone(target: nat, duration: nat, j: nat, k: nat)
    requires duration > 0 && j <= k
    ensures Shown(target, duration, j) <= Shown(target, duration, k)
  {
    StartAfterMonotone(target, duration, j, k);
    if Reached(target, duration, j) {
      ReachedMonotone(target, duration, j, k);
    }
  }

  /** From one frame to the next the parsed display never decreases, and it
      stays below the target while the interval is set. */
  lemma ShownProgress(target: nat, s: Suffix, ticks: nat)
    ensures
      var before := ParseStat(FrameText(Num(target), DefaultDuration, s, ticks));
      var after := ParseStat(FrameText(Num(target), DefaultDuration, s, ticks + 1));
      before.Num? && after.Num? && before.value <= after.value &&
      (TimerSet(Num(target), DefaultDuration, ticks + 1) ==> after.value < target)
  {
    if ticks == 0 {
      ParseDisplayed(0, SuffixText(s));
      assert NatToString(0) == "0";
    } else {
      ParseDisplayed(Shown(target, DefaultDuration, ticks), RunSuffix(s));
      ShownMonotone(target, DefaultDuration, ticks, ticks + 1);
    }
    ParseDisplayed(Shown(target, DefaultDuration, ticks + 1), RunSuffix(s));
  }

  /** The last frame of a run is exactly the target followed by the run's
      suffix, and it parses back to the target. */
  lemma FinalFrame(target: nat, duration: nat, s: Suffix, ticks: nat)
    requires duration > 0 && ticks > 0 && Reached(target, duration, ticks)
    ensures FrameText(Num(target), duration, s, ticks) == NatToString(target) + RunSuffix(s)
    ensures ParseStat(FrameText(Num(target), duration, s, ticks)) == Num(target)
  {
    ParseDisplayed(target, RunSuffix(s));
  }

  /** The tick on which a run toward `target` with the default duration
      clears its interval: the timer is set before tick k and not after it. */
  function RunLength(target: nat): (k: nat)
    ensures k > 0 && Reached(target, DefaultDuration, k) && !TimerSet(Num(target), DefaultDuration, k)
    ensures forall j :: 0 <= j < k ==> TimerSet(Num(target), DefaultDuration, j)
  {
    if target == 0 then 1
    else
      assert forall j :: 0 <= j <= 125 ==> (Reached(target, DefaultDuration, j) <==> j == 125) by {
        forall j | 0 <= j <= 125 {
          DefaultRunLength(target, j);
        }
      }
      125
  }

  /** The run started from a stat with text `text` keeps its interval set
      through tick k - 1, clears it on tick k, and tick k writes `final`. */
  ghost predicate EndsAs(text: string, k: nat, final: string) {
    var target := ParseStat(text);
    (forall j :: 0 <= j < k ==> TimerSet(target, DefaultDuration, j)) &&
    !TimerSet(target, DefaultDuration, k) &&
    FrameText(target, DefaultDuration, SuffixOf(text), k) == final
  }

  /** What a stat with original text `text` finally shows: None when its
      animation never ends (a text without digits). */
  function FinalText(text: string): Option<string> {
    match ParseStat(text)
    case NaN => None
    case Num(t) => Some(NatToString(t) + RunSuffix(SuffixOf(text)))
  }

  /** `FinalText` is the frame written by the tick that clears the interval;
      a run toward NaN never clears it. */
  lemma FinalTextIsLastFrame(text: string)
    ensures ParseStat(text).Num? ==>
      FinalText(text).Some? && EndsAs(text, RunLength(ParseStat(text).value), FinalText(text).value)
    ensures ParseStat(text).NaN? ==>
      FinalText(text) == None && forall k :: TimerSet(ParseStat(text), DefaultDuration, k)
  {
    if ParseStat(text).Num? {
      var t := ParseStat(text).value;
      FinalFrame(t, DefaultDuration, SuffixOf(text), RunLength(t));
    }
  }

  /** A stat written as a number followed by '+' or '%' ends showing exactly
      its original text; one written without suffix ends with a '%' added. */
  lemma FinalTextOfStat(n: nat, s: Suffix)
    ensures
      var text := NatToString(n) + SuffixText(s);
      var final := if s == NoSuffix then NatToString(n) + "%" else text;
      FinalText(text) == Some(final) && EndsAs(text, RunLength(n), final)
  {
    var text := NatToString(n) + SuffixText(s);
    ParseDisplayed(n, SuffixText(s));
    DigitsHaveNoSymbol(NatToString(n), '+');
    DigitsHaveNoSymbol(NatToString(n), '%');
    assert '+' in text <==> '+' in SuffixText(s);
    assert '%' in text <==> '%' in SuffixText(s);
    FinalTextIsLastFrame(text);
  }

  /** The stat "250+" runs 125 ticks and ends showing "250+". */
  lemma FinalTextPlusExample()
    ensures FinalText("250+") == Some("250+") && EndsAs("250+", 125, "250+")
  {
    assert NatToString(2) == "2";
    assert NatToString(25) == "25";
    assert NatToString(250) == "250";
    FinalTextOfStat(250, Plus);
    assert NatToString(250) + SuffixText(Plus) == "250+";
  }

  /** The stat "98%" runs 125 ticks and ends showing "98%". */
  lemma FinalTextPercentExample()
    ensures FinalText("98%") == Some("98%") && EndsAs("98%", 125, "98%")
  {
    assert NatToString(9) == "9";
    assert NatToString(98) == "98";
    FinalTextOfStat(98, Percent);
    assert NatToString(98) + SuffixText(Percent) == "98%";
  }

  /** The stat "42" runs 125 ticks and gains a '%'. */
  lemma FinalTextBareExample()
    ensures FinalText("42") == Some("42%") && EndsAs("42", 125, "42%")
  {
    assert NatToString(4) == "4";
    assert NatToString(42) == "42";
    FinalTextOfStat(42, NoSuffix);
    assert NatToString(42) + SuffixText(NoSuffix) == "42";
    assert "42" + "%" == "42%";
  }

  // ---------------------------------------------------------------------
  // The page state of one stat card
  // ---------------------------------------------------------------------

  datatype Phase = NotStarted | Running | Done

  /** A `.stat-card` and its `.stat-number` element, with the interval that
      `animateCounter` sets on it. */
  class StatCard {
    /** Whether the stats observer still watches this card. */
    var observed: bool
    /** Whether the card contains a `.stat-number` element. */
    const hasStatNumber: bool
    /** The `.stat-number` element's `textContent`. */
    var text: string
    /** The 'animated' class on the `.stat-number` element. */
    var animated: bool
    /** Whether the counter's interval is set. */
    var timerSet: bool
    /** The closure state of `animateCounter`. */
    var target: Number
    var increment: real
    var start: real

    /** Whether this script started the animation, the suffix chosen at the
        reset, and the number of ticks run since. */
    ghost var launched: bool
    ghost var suffix: Suffix
    ghost var ticks: nat

    ghost predicate Valid()
      reads this
    {
      (timerSet ==> launched) &&
      (launched ==>
        hasStatNumber && animated && !observed &&
        text == FrameText(target, DefaultDuration, suffix, ticks) &&
        timerSet == TimerSet(target, DefaultDuration, ticks) &&
        (target.Num? ==>
          increment == Increment(target.value, DefaultDuration) &&
          start == StartAfter(target.value, DefaultDuration, ticks)))
    }

    ghost function CurrentPhase(): Phase
      reads this
    {
      if !launched then NotStarted else if timerSet then Running else Done
    }

    /** The card as the page loads it and the stats observer starts watching it. */
    constructor (hasStatNumber: bool, text: string, animated: bool)
      ensures Valid() && CurrentPhase() == NotStarted
      ensures this.hasStatNumber == hasStatNumber && this.text == text && this.animated == animated
      ensures observed && !timerSet
    {
      this.hasStatNumber := hasStatNumber;
      this.text := text;
      this.animated := animated;
      observed := true;
      timerSet := false;
      target := NaN;
      increment := 0.0;
      start := 0.0;
      launched := false;
      suffix := NoSuffix;
      ticks := 0;
    }

    /** The stats observer's callback for this card's entry. Nothing is
        delivered for a card that is no longer observed. */
    method OnIntersection(isIntersecting: bool)
      requires Valid()
      modifies this
      ensures Valid()
      ensures !(old(observed) && isIntersecting) ==> unchanged(this)
      ensures old(observed) && isIntersecting ==> !observed
      ensures old(launched) ==> animated && launched
      ensures old(animated) ==> animated
      ensures
        var starts := old(observed) && isIntersecting && hasStatNumber && !old(animated);
        (starts ==>
          animated && CurrentPhase() == Running && !old(launched) &&
          target == ParseStat(old(text)) && suffix == SuffixOf(old(text)) &&
          text == ResetText(old(text)) && ticks == 0) &&
        (!starts ==>
          text == old(text) && animated == old(animated) && launched == old(launched) &&
          timerSet == old(timerSet) && target == old(target) && start == old(start) &&
          ticks == old(ticks))
    {
      if observed && isIntersecting {
        if hasStatNumber && !animated {
          animated := true;
          var hasPlus := '+' in text;
          var hasPercent := '%' in text;
          var number := ParseStat(text);
          suffix := SuffixOf(text);
          text := "0" + (if hasPlus then "+" else if hasPercent then "%" else "");
          // Start the counter's interval.
          target := number;
          start := 0.0;
          increment := if number.Num? then Increment(number.value, DefaultDuration) else 0.0;
          timerSet := true;
          launched := true;
          ticks := 0;
        }
        observed := false;
      }
    }

    /** One firing of the counter's interval. */
    method Tick()
      requires Valid()
      modifies this
      ensures Valid()
      ensures !old(timerSet) ==> unchanged(this)
      ensures old(timerSet) ==>
        ticks == old(ticks) + 1 && target == old(target) && suffix == old(suffix) &&
        text == FrameText(target, DefaultDuration, suffix, ticks) &&
        TickSuffix(old(text)) == RunSuffix(suffix)
      ensures old(timerSet) && target.Num? ==>
        (timerSet <==> !Reached(target.value, DefaultDuration, ticks)) &&
        (!timerSet ==> text == NatToString(target.value) + RunSuffix(suffix))
      ensures old(timerSet) && target.Num? ==>
        var shownBefore, shownNow := ParseStat(old(text)), ParseStat(text);
        shownBefore.Num? && shownNow.Num? && shownBefore.value <= shownNow.value &&
        (timerSet ==> shownNow.value < target.value)
      ensures observed == old(observed) && animated == old(animated) && launched == old(launched)
    {
      if timerSet {
        TickSuffixOfFrame(target, DefaultDuration, suffix, ticks);
        if target.Num? {
          ShownProgress(target.value, suffix, ticks);
        }
        ticks := ticks + 1;
        var sfx := if '+' in text then "+" else "%";
        match target {
          case NaN =>
            text := "NaN" + sfx;
          case Num(t) =>
            start := start + increment;
            if start >= t as real {
              text := NatToString(t) + sfx;
              timerSet := false;
            } else {
              text := NatToString(start.Floor) + sfx;
            }
        }
      }
    }
  }
}
