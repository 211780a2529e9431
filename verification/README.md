# EzCircuits page script, modelled in Dafny

The EzCircuits site is a static marketing page with one script, `script.js`,
that wires DOM events to small pieces of state. This project models the parts
of that script that hold logic. The DOM is modelled abstractly: a class flag
is a `bool`, `textContent` is a `string`, and a bounding-box top or a scroll
offset is an `int`.

- `text.dfy` (module `Text`): the JavaScript `\s` whitespace class, decimal
  digits, how a whole number prints, and `replace(/\D/g, '')`.
- `email.dfy` (module `EmailValidation`): `validateEmail`. The regex
  `^[^\s@]+@[^\s@]+\.[^\s@]+$` is written out literally as a predicate. The
  executable check splits the string at its first '@'. It is proved equal to
  that predicate and to a plain-words description: exactly one '@', non-empty
  local part and domain without whitespace, and a '.' inside the domain that is
  neither its first nor its last character.
- `stat_counter.dfy` (module `StatCounter`): the statistics counters.
  - `StatCard` is one `.stat-card` with its `.stat-number` and the interval
    that `animateCounter` sets on it.
  - `OnIntersection` is the stats observer's callback. It checks the
    'animated' guard, parses the number, resets the text to "0" plus the
    suffix, starts the timer and unobserves the card.
  - `Tick` is one firing of the interval.
  - Pure functions describe the whole run: `StartAfter`, `Reached`, `Shown`,
    `FrameText` and `TimerSet`. `StatCard.Valid()` ties the object to them.
- `menu.dfy` (module `MobileMenu`): the two 'active' flags of the hamburger
  button and the menu. The click, link and Escape handlers are methods of
  `Menu`, specified by a transition function `Step`.
- `scroll.dfy` (module `ScrollEffects`): `revealOnScroll` is a loop over an
  `array<bool>` of 'active' flags. Also here are the reveal observer's callback
  and the window scroll handler, which sets the navbar's 'scrolled' flag.

Behaviour that the code has and that a reader might not expect:

- On every tick the counter re-chooses its suffix from the current text: '+'
  if the text has one, and '%' otherwise. A stat written with no suffix, such
  as "42", therefore ends as "42%", and every frame from the first tick on ends
  in '%'. A reader might expect the suffix to be chosen once and kept; the
  code re-chooses it on every tick, and this model follows the code.
  `TickSuffixOfFrame` and `FinalTextOfStat` prove the behaviour, and
  `FinalTextBareExample` shows it.
- A stat text with no digit parses to NaN. The reset still writes "0" plus
  the suffix. Every tick then writes "NaN" plus the tick suffix, because
  `NaN >= NaN` is false, so the interval is never cleared. The model keeps
  this path (`Number.NaN`, `TimerSet`).
- In the model's exact arithmetic, with the default duration of 2000 ms, a
  positive target is first reached on tick 125. A target of 0 is reached on
  the first tick. A browser sums IEEE doubles instead, and for some targets
  (9, 42 and 100 among them) the sum after 125 increments falls just short,
  so the browser may clear the interval only on tick 126.
- `parseInt` sees every digit of the stat text, wherever it is: "1,000+"
  parses to 1000.

## Model

| member | source | states |
|---|---|---|
| `Text.DecimalValueOfNatToString` | script.js:242-245 | reading back the digits that a displayed whole number prints gives that number |
| `Text.NatToString` | script.js:242-245 | a printed whole number is a non-empty string of decimal digits |
| `Text.KeepDigits` | script.js:261 | stripping `\D` leaves only digits and never lengthens the text |
| `Text.KeepDigitsAppend` | script.js:261 | stripping non-digits works character by character: it distributes over concatenation |
| `Text.KeepDigitsOfDigits` | script.js:261 | a string of digits is left unchanged |
| `Text.KeepDigitsOfNonDigits` | script.js:261 | a string without digits is erased |
| `Text.KeepDigitsMembers` | script.js:261 | a character survives exactly when it is in the text and is a digit |
| `Text.KeepDigitsEmpty` | script.js:261 | nothing is left exactly when the text has no digit |
| `Text.KeepDigitsInterleave` | script.js:261 | stripping the non-digits from digit runs separated by digit-free text leaves the runs joined in order |
| `Text.IsWhitespace` | script.js:227 | the `\s` class; none of its characters is a digit, '@', '.', '+' or '%' |
| `EmailValidation.ValidateEmail` | script.js:226-229 | true exactly when the regex `^[^\s@]+@[^\s@]+\.[^\s@]+$` matches, and exactly when the address has a single '@', non-empty whitespace-free local part and domain, and a '.' inside the domain |
| `EmailValidation.FirstIndexOf` | script.js:227 | the index of the first '@': present exactly when the string contains one, with no '@' before it |
| `EmailValidation.HasDotInside` | script.js:227 | the domain has a '.' that is neither its first nor its last character |
| `EmailValidation.FirstAtOfPlainSplit` | script.js:227 | a split into plain runs around an '@' is at the first '@' |
| `EmailValidation.PatternIffPlainSplit` | script.js:227 | the regex matches exactly when the string splits at an '@' into a plain local part and a plain domain with an inner '.' |
| `EmailValidation.PlainSplitIffAddressSplit` | script.js:227 | at a given '@', "both sides are runs of `[^\s@]`" is the same as "that '@' is the only one and both sides have no whitespace" |
| `StatCounter.SuffixOf` | script.js:259-263 | no suffix exactly when the text has neither '+' nor '%'; a chosen suffix is a character of the text |
| `StatCounter.ParseStat` | script.js:261 | the parse is NaN exactly when the text has no digit |
| `StatCounter.ParseStatDigits` | script.js:261 | for any text written as digit-free separators around digit runs, the target is the number that all the runs spell, joined in order, and NaN when there is no digit |
| `StatCounter.ParseStatSeparatedExample` | script.js:261 | "1,000+" parses to 1000 |
| `StatCounter.ParseDisplayed` | script.js:242-245 | a counter frame (a number followed by a suffix) parses back to the number it shows |
| `StatCounter.ResetText` | script.js:259-263 | the reset display reads as 0, and the suffix the first tick re-reads from it is the run's suffix |
| `StatCounter.TickSuffix` | script.js:242-245 | the suffix a tick appends is one non-digit character, '+' exactly when the current text has a '+' |
| `StatCounter.StartAfter` | script.js:236-240 | the accumulator is never negative |
| `StatCounter.Reached` | script.js:236-241 | a run is reached before any tick only for a target of 0, and a target of 0 is always reached |
| `StatCounter.Shown` | script.js:241-245 | the shown number never exceeds the target, and equals it exactly when the target is reached |
| `StatCounter.FrameText` | script.js:236-247 | every frame parses to the number it shows: 0 before the first tick, NaN for a NaN target, the shown number otherwise |
| `StatCounter.TimerSet` | script.js:241-243 | a cleared interval means a numeric target shown in full after at least one tick; while set, the number shown after a tick is below the target |
| `StatCounter.ResetTextSuffix` | script.js:258-263 | after the reset the display is "0" followed by '+' if the text had a '+', else '%' if it had a '%', else nothing; the display then reads as 0 |
| `StatCounter.TickSuffixOfFrame` | script.js:242-245 | the suffix re-chosen on each tick is '+' for a run reset with '+', and '%' otherwise (also for a stat with no suffix) |
| `StatCounter.StartAfterIsLinear` | script.js:236-240 | after k ticks the accumulator holds k times the increment |
| `StatCounter.StartAfterMonotone` | script.js:240 | the accumulator never decreases |
| `StatCounter.ReachedIffEnoughTicks` | script.js:235-241 | a positive target is reached exactly from the first tick k with 16 * k >= duration |
| `StatCounter.DefaultRunLength` | script.js:235-241 | with the default duration a positive target is reached on tick 125 and on no earlier tick |
| `StatCounter.ZeroTargetFirstTick` | script.js:237-243 | a target of 0 is reached, shown and its interval cleared on the first tick |
| `StatCounter.ReachedMonotone` | script.js:241-243 | once the target is reached it stays reached |
| `StatCounter.ShownBelowTarget` | script.js:244-246 | every number shown before the final snap is strictly below the target |
| `StatCounter.ShownMonotone` | script.js:240-246 | the shown numbers never decrease, up to and including the final snap |
| `StatCounter.ShownProgress` | script.js:240-246 | from one frame to the next the parsed display does not decrease, and while the interval is set it stays below the target |
| `StatCounter.FinalFrame` | script.js:241-243 | the last frame is exactly the target followed by the run's suffix, and it parses back to the target |
| `StatCounter.RunLength` | script.js:235-243 | the interval is set on every tick before this one and cleared on it |
| `StatCounter.FinalTextIsLastFrame` | script.js:235-264 | for a numeric target, the final text is the frame of the tick that clears the interval, and the interval is set on every earlier tick; for NaN there is no final text and the interval is never cleared |
| `StatCounter.FinalTextOfStat` | script.js:258-264 | a stat written as n followed by '+' or '%' ends showing exactly its original text, and one written as n alone ends as n followed by '%'; that text is the frame of the tick that clears the interval |
| `StatCounter.FinalTextPlusExample` | script.js:258-264 | "250+" keeps its interval for ticks 0 to 124, clears it on tick 125, and that tick writes "250+" |
| `StatCounter.FinalTextPercentExample` | script.js:258-264 | "98%" keeps its interval for ticks 0 to 124, clears it on tick 125, and that tick writes "98%" |
| `StatCounter.FinalTextBareExample` | script.js:258-264 | "42" keeps its interval for ticks 0 to 124, clears it on tick 125, and that tick writes "42%" |
| `StatCounter.StatCard.constructor` | script.js:271-273 | a card as loaded: observed, not started, its timer not set |
| `StatCounter.StatCard.OnIntersection` | script.js:252-268 | an intersecting card is unobserved. The animation starts only when the card has a `.stat-number` without 'animated'. Then 'animated' is set, the target is the parsed text, the display is reset, and the run starts at tick 0. Otherwise nothing but the observation changes. 'animated' never goes back to false, and a run never starts twice |
| `StatCounter.StatCard.Tick` | script.js:239-247 | a firing of a set interval advances the run by one tick and writes its frame with the suffix re-read from the old text. The parsed display never decreases and stays below the target while the timer is set. The timer is cleared exactly when the target is reached, leaving the target followed by the run's suffix. A cleared timer changes nothing |
| `MobileMenu.Step` | script.js:24-35 | the effect of one handler, the Escape handler of lines 306-309 included, on the two flags; only a hamburger click opens a closed menu |
| `MobileMenu.Run` | script.js:24-35 | a sequence of events handled in order; a closed menu ends open only if the sequence has a hamburger click |
| `MobileMenu.StepKeepsSync` | script.js:23-35 | every handler keeps the hamburger's and the menu's 'active' flags equal |
| `MobileMenu.RunKeepsSync` | script.js:303-310 | any sequence of clicks and key presses from agreeing flags leaves them agreeing |
| `MobileMenu.RunAppend` | script.js:23-35 | handling two event sequences in turn is handling their concatenation |
| `MobileMenu.CloseEvents` | script.js:29-35 | a link click clears both flags. Escape clears both when the menu is open. Any other key, or Escape on a closed menu, changes nothing |
| `MobileMenu.HamburgerToggles` | script.js:24-27 | a hamburger click flips the menu and keeps the flags equal, and two clicks restore the state |
| `MobileMenu.EndsClosedAfterLinkClick` | script.js:30-35 | whatever came before, a link click leaves the menu closed |
| `MobileMenu.Menu.constructor` | script.js:7-8 | the button and the menu start without 'active' |
| `MobileMenu.Menu.OnHamburgerClick` | script.js:24-27 | both flags are toggled and stay equal |
| `MobileMenu.Menu.OnNavLinkClick` | script.js:31-34 | both flags are cleared |
| `MobileMenu.Menu.OnKeyDown` | script.js:304-310 | Escape on an open menu clears both flags, any other key changes nothing, and after Escape the menu is closed |
| `ScrollEffects.ShouldReveal` | script.js:64-66 | the reveal test: the element's top is more than 150 px above the bottom of the window |
| `ScrollEffects.IsScrolled` | script.js:13 | the navbar test: the page is scrolled more than 50 px |
| `ScrollEffects.Revealed` | script.js:58-70 | the reveal check keeps one flag per element |
| `ScrollEffects.RevealedAt` | script.js:61-68 | after a check, an element is active exactly when it was already active or its top is above `innerHeight - 150` |
| `ScrollEffects.RevealedKeepsActive` | script.js:66-68 | the reveal check never removes 'active' |
| `ScrollEffects.RevealedIdempotent` | script.js:58-70 | a second check with the same geometry changes nothing |
| `ScrollEffects.AfterChecks` | script.js:12-21 | a sequence of checks keeps one flag per element |
| `ScrollEffects.RevealIsPermanent` | script.js:12-21 | an element that is active, or passes the test at any check, is active after every later check, wherever the page is scrolled |
| `ScrollEffects.RevealOnScroll` | script.js:58-70 | the loop leaves the flags equal to one reveal check of the old flags |
| `ScrollEffects.OnRevealIntersection` | script.js:146-154 | an intersecting element gains 'active', and no flag is removed |
| `ScrollEffects.OnWindowScroll` | script.js:12-21 | 'scrolled' holds exactly when `scrollY > 50`, and the reveal check runs |
| `ScrollEffects.Navbar.constructor` | script.js:6 | the navbar starts without 'scrolled' |

## Left out

- Event wiring is not modelled: `addEventListener`, the `DOMContentLoaded` ordering, and when an IntersectionObserver delivers an entry, including its thresholds and root margin. Each handler is a method that its caller invokes. `StatCard.OnIntersection` takes `isIntersecting` as a parameter.
- Wall-clock timing of `setInterval` is not modelled. `StatCard.Tick` is one firing, in whatever order the caller chooses.
- StatCounter.StartAfter: uses exact `real` arithmetic, not IEEE doubles. The double sum of 125 increments can fall just short of the target and take one more tick. The displayed floor can also differ at a boundary.
- Text.NatToString: gives only the plain decimal form. JavaScript prints numbers from 1e21 upward in exponent form, and `parseInt` loses precision above 2^53; neither is modelled.
- StatCard.OnIntersection: always uses the default duration of 2000 ms, the only one the page uses. The pure functions accept any positive duration. A duration of 0 (an infinite increment) is not modelled.
- Scroll offsets, window heights and element tops are integers. Browsers can report fractional pixels.
- The script assumes the navbar, the hamburger and the menu exist, and it fails without them. The model takes them as present. It does model a card without a `.stat-number`.
- Menu.constructor: the initial classes come from the page's markup. The model assumes the menu starts closed.
- The ripple glow on buttons (script.js:80-107) is left out: it is timer-driven style output.
- `debounce` and its empty callback (script.js:282-297) are left out: they are timer plumbing with nothing to model.
- Smooth scrolling (script.js:38-52, 113-133) is left out: it only calls `window.scrollTo` at an offset of -80.
- The parallax transform (script.js:181-189) and the cursor gradient (script.js:196-220) are left out: their output is floating-point style text.
- The random animation delays (script.js:168-175) are left out: they come from `Math.random`.
- The focus outlines (script.js:313-327) and the console messages (script.js:333-341) are left out: they are cosmetic output.
- `IsWhitespace` follows the current Unicode list of space separators, and other Unicode versions may differ. Code points outside the Basic Multilingual Plane do not matter here.
