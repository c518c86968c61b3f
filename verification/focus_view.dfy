/** The focus screen of components/TimerView/FocusView.tsx: the one-second countdown,
    the `m:ss` clock, the pause toggle and the quote drawn at random. */
module FocusView {
  import opened Wrappers
  import opened Text
  import Ordering

  const FOCUS_QUOTES: seq<string> := [
    "Focus is the art of knowing what to ignore.",
    "The successful warrior is the average person with laser-like focus.",
    "Where focus goes, energy flows.",
    "Stay focused, go after your dreams, and keep moving toward your goals.",
    "Focus on the journey, not the destination.",
    "Your focus determines your reality.",
    "Concentrate all your thoughts on the task at hand.",
    "It's not that I'm so smart, it's just that I stay with problems longer.",
    "The more intensely we feel about an idea or a goal, the more assuredly the idea will become reality.",
    "Lack of direction, not lack of time, is the problem. We all have 24-hour days.",
    "Focus on being productive instead of busy.",
    "Starve your distractions, feed your focus.",
    "The sun's rays do not burn until brought to a focus.",
    "What you stay focused on will grow.",
    "Focus is a matter of deciding what things you're not going to do."
  ]

  /** `getRandomQuote` for a `Math.random()` value `roll`. */
  function GetRandomQuote(roll: real): (q: string)
    requires 0.0 <= roll < 1.0
    ensures q in FOCUS_QUOTES
  {
    FOCUS_QUOTES[Ordering.RandomIndex(roll, |FOCUS_QUOTES|)]
  }

  /** The countdown state the interval updates. */
  datatype Countdown = Countdown(remaining: int, finished: bool)

  /** One interval callback: above 1 the count drops by one; at 1 or below it lands on 0
      and the timer is marked finished. */
  function Tick(c: Countdown): (c': Countdown)
    ensures c'.remaining >= 0
    ensures c'.remaining == (if c.remaining > 1 then c.remaining - 1 else 0)
    ensures c'.finished <==> c.finished || c.remaining <= 1
  {
    if c.remaining <= 1 then Countdown(0, true) else c.(remaining := c.remaining - 1)
  }

  /** The interval runs only with an activity and while not paused. */
  predicate Ticking(hasActivity: bool, isPaused: bool) {
    hasActivity && !isPaused
  }

  /** One second of wall time. */
  function Second(c: Countdown, hasActivity: bool, isPaused: bool): (c': Countdown)
    ensures !Ticking(hasActivity, isPaused) ==> c' == c
    ensures Ticking(hasActivity, isPaused) ==> c' == Tick(c)
  {
    if Ticking(hasActivity, isPaused) then Tick(c) else c
  }

  /** `k` uninterrupted ticks. */
  function Run(c: Countdown, k: nat): Countdown
    decreases k
  {
    if k == 0 then c else Run(Tick(c), k - 1)
  }

  /** From a fresh countdown of `n` seconds, `k` ticks leave `n - k` seconds, and the
      timer is finished exactly once `k` reaches `n`. */
  lemma {:induction false} CountsDown(n: nat, k: nat)
    requires n >= 1
    ensures Run(Countdown(n, false), k).remaining == if k < n then n - k else 0
    ensures Run(Countdown(n, false), k).finished <==> k >= n
    decreases k
  {
    if k > 0 {
      if n == 1 {
        SettledAtZero(k - 1);
      } else {
        CountsDown(n - 1, k - 1);
      }
    }
  }

  /** A finished countdown stays at 0. */
  lemma {:induction false} SettledAtZero(k: nat)
    ensures Run(Countdown(0, true), k) == Countdown(0, true)
    decreases k
  {
    if k > 0 {
      SettledAtZero(k - 1);
    }
  }

  /** `formatTime`: whole minutes, a colon, and the seconds padded to two digits. */
  function FormatTime(seconds: nat): string {
    NatToString(seconds / 60) + ":" + Pad2(NatToString(seconds % 60))
  }

  /** The clock text reads back as the number of seconds it shows: minutes times 60 plus
      the seconds field. */
  lemma FormatTimeReadsBack(seconds: nat)
    ensures var parts := Split(FormatTime(seconds), ':');
      && |parts| == 2
      && ParseDecimal(parts[0]) == Some(seconds / 60)
      && ParseDecimal(parts[1]) == Some(seconds % 60)
      && (seconds / 60) * 60 + seconds % 60 == seconds
      && |parts[1]| == 2
  {
    var mins := NatToString(seconds / 60);
    var secs := Pad2(NatToString(seconds % 60));
    ParsePad2(seconds % 60, "");
    assert FormatTime(seconds) == mins + [':'] + secs;
    assert ':' !in mins by {
      assert forall k :: 0 <= k < |mins| ==> IsDigit(mins[k]);
    }
    assert ':' !in secs by {
      assert forall k :: 0 <= k < |secs| ==> IsDigit(secs[k]);
    }
    SplitAtFirst(mins, ':', secs);
    SplitWithoutSeparator(secs, ':');
    ParseNatToString(seconds / 60, "");
    assert mins + "" == mins && secs + "" == secs;
  }

  /** `togglePause`. */
  function TogglePause(isPaused: bool): (p: bool)
    ensures p != isPaused
  {
    !isPaused
  }

  /** Pausing and resuming leaves the countdown where it was. */
  lemma PauseFreezes(c: Countdown, hasActivity: bool, isPaused: bool)
    ensures Second(c, hasActivity, true) == c
    ensures TogglePause(TogglePause(isPaused)) == isPaused
    ensures Second(c, false, isPaused) == c
  {
  }
}
