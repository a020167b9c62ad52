// The hero-banner typewriter of the portfolio page: it types one of five
// job titles a character at a time, pauses, deletes it a character at a
// time, pauses again and moves on to the next title, forever.
//
// `Next` is the pure specification of one tick over any list of titles;
// `Rotator` is the object whose fields the page updates in place, built over
// the page's own five titles, and its `Typewrite` method is proved to
// perform exactly `Next`. Rescheduling with a timer becomes "the caller calls
// `Typewrite` again after `delay` milliseconds".

module Typewriter {

  /** The titles the banner cycles through, in order. */
  const Titles: seq<string> := [
    "AI Engineer",
    "ML Researcher",
    "LLM Specialist",
    "Computer Vision Engineer",
    "RAG Pipeline Architect"
  ]

  /** Delays, in milliseconds, before the next tick. */
  const TypingDelay := 80
  const DeletingDelay := 40
  const EndOfWordPause := 2000
  const NextWordPause := 400

  /** The three variables the rotator updates on every tick. */
  datatype State = State(titleIndex: int, charIndex: int, isDeleting: bool)

  /** What one tick shows, and how long until the next tick. */
  datatype Tick = Tick(text: string, delay: int)

  datatype Transition = Transition(next: State, tick: Tick)

  /** The state the page starts in: first title, nothing typed, typing. */
  const Start := State(0, 0, false)

  /** JavaScript's `s.substring(0, end)`: `end` is clamped into [0, |s|]. */
  function Substring0(s: string, end: int): string
  {
    if end <= 0 then "" else if end >= |s| then s else s[..end]
  }

  /** A list the rotator can cycle through: at least one title, none empty. */
  predicate ValidTitles(titles: seq<string>)
  {
    |titles| > 0 && forall i :: 0 <= i < |titles| ==> |titles[i]| > 0
  }

  /** The title index can be used to look up a title. */
  predicate HasTitle(titles: seq<string>, s: State)
  {
    0 <= s.titleIndex < |titles|
  }

  /**
   * The invariant of every reachable state: while typing there is still a
   * character of the current title left to type, while deleting there is
   * still one left to delete.
   */
  predicate Inv(titles: seq<string>, s: State)
  {
    HasTitle(titles, s) &&
    if s.isDeleting then 1 <= s.charIndex <= |titles[s.titleIndex]|
    else 0 <= s.charIndex < |titles[s.titleIndex]|
  }

  /**
   * One tick: type or delete one character of the current title, then flip
   * the mode at the ends of the word, moving on to the next title (cyclically)
   * when a word has been deleted completely.
   */
  function Next(titles: seq<string>, s: State): (r: Transition)
    requires HasTitle(titles, s)
    ensures HasTitle(titles, r.next)
    ensures r.tick.text <= titles[s.titleIndex]
    ensures ValidTitles(titles) && Inv(titles, s) ==> Inv(titles, r.next)
    ensures Inv(titles, s) ==> 0 <= r.next.charIndex <= |titles[s.titleIndex]|
    ensures Inv(titles, s) ==> r.tick.text == titles[s.titleIndex][..r.next.charIndex]
  {
    var current := titles[s.titleIndex];
    var charIndex := if s.isDeleting then s.charIndex - 1 else s.charIndex + 1;
    var text := Substring0(current, charIndex);
    var speed := if s.isDeleting then DeletingDelay else TypingDelay;
    if !s.isDeleting && charIndex == |current| then
      Transition(State(s.titleIndex, charIndex, true), Tick(text, EndOfWordPause))
    else if s.isDeleting && charIndex == 0 then
      Transition(State((s.titleIndex + 1) % |titles|, charIndex, false), Tick(text, NextWordPause))
    else
      Transition(State(s.titleIndex, charIndex, s.isDeleting), Tick(text, speed))
  }

  /** The page's own list can be cycled through, from the start state. */
  lemma PageTitlesValid()
    ensures ValidTitles(Titles) && |Titles| == 5
    ensures Inv(Titles, Start)
  {
  }

  /**
   * A typing tick moves one character forward and waits 80 ms, or 2000 ms
   * when it completes the word; a deleting tick moves one character back and
   * waits 40 ms, or 400 ms when it empties the word.
   */
  lemma StepDelays(titles: seq<string>, s: State)
    requires Inv(titles, s)
    ensures var r := Next(titles, s);
      if !s.isDeleting then
        r.next.charIndex == s.charIndex + 1 &&
        r.tick.delay == (if r.next.charIndex == |titles[s.titleIndex]| then EndOfWordPause else TypingDelay)
      else
        r.next.charIndex == s.charIndex - 1 &&
        r.tick.delay == (if r.next.charIndex == 0 then NextWordPause else DeletingDelay)
  {
  }

  /** Moving on from the last title wraps round to the first. */
  lemma NextIndex(i: int, n: int)
    requires 0 <= i < n
    ensures (i + 1) % n == if i + 1 < n then i + 1 else 0
  {
  }

  /**
   * The mode flips exactly at the ends of the word, and the title changes
   * only when a deletion reaches the empty word, to the next one round the
   * list.
   */
  lemma ModeSwitchesAtBoundaries(titles: seq<string>, s: State)
    requires Inv(titles, s)
    ensures var r := Next(titles, s);
      (r.next.isDeleting != s.isDeleting <==>
        if s.isDeleting then r.next.charIndex == 0 else r.next.charIndex == |titles[s.titleIndex]|)
    ensures var r := Next(titles, s);
      r.next.titleIndex ==
        if !s.isDeleting || r.next.charIndex != 0 then s.titleIndex
        else if s.titleIndex + 1 < |titles| then s.titleIndex + 1
        else 0
  {
    NextIndex(s.titleIndex, |titles|);
  }

  /** The state after `n` ticks from `s`, and the ticks shown on the way. */
  function Run(titles: seq<string>, s: State, n: nat): (r: (State, seq<Tick>))
    requires HasTitle(titles, s)
    ensures HasTitle(titles, r.0) && |r.1| == n
    ensures ValidTitles(titles) && Inv(titles, s) ==> Inv(titles, r.0)
    decreases n
  {
    if n == 0 then (s, [])
    else
      var t := Next(titles, s);
      var rest := Run(titles, t.next, n - 1);
      (rest.0, [t.tick] + rest.1)
  }

  /** Running `a` ticks and then `b` more is running `a + b` ticks. */
  lemma {:induction false} RunAppend(titles: seq<string>, s: State, a: nat, b: nat)
    requires HasTitle(titles, s)
    ensures var first := Run(titles, s, a);
      var second := Run(titles, first.0, b);
      Run(titles, s, a + b) == (second.0, first.1 + second.1)
    decreases a
  {
    if a > 0 {
      var t := Next(titles, s);
      RunAppend(titles, t.next, a - 1, b);
      var first := Run(titles, t.next, a - 1);
      var second := Run(titles, first.0, b);
      assert Run(titles, s, a) == (first.0, [t.tick] + first.1);
      assert Run(titles, s, a + b) == (second.0, [t.tick] + (first.1 + second.1)) by {
        assert a + b - 1 == (a - 1) + b;
      }
      assert [t.tick] + (first.1 + second.1) == ([t.tick] + first.1) + second.1;
    } else {
      assert Run(titles, s, a).1 + Run(titles, s, b).1 == Run(titles, s, b).1;
    }
  }

  /**
   * The ticks that type `title` from `from` characters up to the whole
   * word: each shows one more character, the last one pauses.
   */
  function TypingTicks(title: string, from: nat): seq<Tick>
    requires from <= |title|
  {
    seq(|title| - from, k requires 0 <= k < |title| - from =>
      Tick(title[..from + k + 1], if from + k + 1 == |title| then EndOfWordPause else TypingDelay))
  }

  /**
   * The ticks that delete `title` from `from` characters down to nothing:
   * each shows one character fewer, the last one pauses.
   */
  function DeletingTicks(title: string, from: nat): seq<Tick>
    requires from <= |title|
  {
    seq(from, k requires 0 <= k < from =>
      Tick(title[..from - k - 1], if from - k - 1 == 0 then NextWordPause else DeletingDelay))
  }

  /** Everything one title shows: typed in full, then deleted in full. */
  function CycleTicks(title: string): seq<Tick>
  {
    TypingTicks(title, 0) + DeletingTicks(title, |title|)
  }

  /** Typing from `c` characters finishes the word after `|title| - c` ticks. */
  lemma {:induction false} TypingPhase(titles: seq<string>, i: int, c: int)
    requires 0 <= i < |titles| && 0 <= c < |titles[i]|
    ensures Run(titles, State(i, c, false), |titles[i]| - c)
      == (State(i, |titles[i]|, true), TypingTicks(titles[i], c))
    decreases |titles[i]| - c
  {
    var title := titles[i];
    var s := State(i, c, false);
    var t := Next(titles, s);
    var n := |title| - c;
    assert t.tick == Tick(title[..c + 1], if c + 1 == |title| then EndOfWordPause else TypingDelay);
    assert Run(titles, s, n) == (Run(titles, t.next, n - 1).0, [t.tick] + Run(titles, t.next, n - 1).1);
    if c + 1 == |title| {
      assert t.next == State(i, |title|, true);
      assert Run(titles, t.next, n - 1) == (t.next, []);
      assert [t.tick] + [] == [t.tick];
      assert TypingTicks(title, c) == [t.tick];
    } else {
      assert t.next == State(i, c + 1, false);
      TypingPhase(titles, i, c + 1);
      assert TypingTicks(title, c) == [t.tick] + TypingTicks(title, c + 1);
    }
  }

  /** Deleting from `c` characters empties the word after `c` ticks and moves on. */
  lemma {:induction false} DeletingPhase(titles: seq<string>, i: int, c: int)
    requires 0 <= i < |titles| && 1 <= c <= |titles[i]|
    ensures Run(titles, State(i, c, true), c)
      == (State((i + 1) % |titles|, 0, false), DeletingTicks(titles[i], c))
    decreases c
  {
    var title := titles[i];
    var s := State(i, c, true);
    var t := Next(titles, s);
    assert t.tick == Tick(title[..c - 1], if c - 1 == 0 then NextWordPause else DeletingDelay);
    assert Run(titles, s, c) == (Run(titles, t.next, c - 1).0, [t.tick] + Run(titles, t.next, c - 1).1);
    if c == 1 {
      assert t.next == State((i + 1) % |titles|, 0, false);
      assert Run(titles, t.next, c - 1) == (t.next, []);
      assert [t.tick] + [] == [t.tick];
      assert DeletingTicks(title, c) == [t.tick];
    } else {
      assert t.next == State(i, c - 1, true);
      DeletingPhase(titles, i, c - 1);
      assert DeletingTicks(title, c) == [t.tick] + DeletingTicks(title, c - 1);
    }
  }

  /**
   * Starting a title from nothing, after exactly twice its length in ticks
   * the rotator has typed it, deleted it, and is about to type the next
   * title; every state on the way satisfies the invariant.
   */
  lemma Cycle(titles: seq<string>, i: int)
    requires ValidTitles(titles) && 0 <= i < |titles|
    ensures Run(titles, State(i, 0, false), 2 * |titles[i]|)
      == (State((i + 1) % |titles|, 0, false), CycleTicks(titles[i]))
    ensures forall k :: 0 <= k <= 2 * |titles[i]| ==> Inv(titles, Run(titles, State(i, 0, false), k).0)
  {
    var L := |titles[i]|;
    TypingPhase(titles, i, 0);
    DeletingPhase(titles, i, L);
    RunAppend(titles, State(i, 0, false), L, L);
    assert L + L == 2 * L;
  }

  /** The number of ticks taken by the `m` titles from title `i` on. */
  function RotationLength(titles: seq<string>, i: int, m: nat): nat
    requires 0 <= i < |titles|
    decreases m
  {
    if m == 0 then 0
    else 2 * |titles[i]| + RotationLength(titles, (i + 1) % |titles|, m - 1)
  }

  /** A value written as `q * n + r` with `0 <= r < n` leaves remainder `r`. */
  lemma ModUnique(x: int, n: int, q: int, r: int)
    requires n > 0 && x == q * n + r && 0 <= r < n
    ensures x % n == r
  {
    var d := q - x / n;
    assert d * n == x % n - r;
  }

  /** Adding the modulus does not change the remainder. */
  lemma ModAddN(m: int, n: int)
    requires n > 0
    ensures (n + m) % n == m % n
  {
    ModUnique(n + m, n, m / n + 1, m % n);
  }

  /**
   * Starting title `i` from nothing, after the ticks of the next `m` titles
   * (any number of them, going round the list as often as needed) the
   * rotator is about to type the title `m` places further round the list.
   */
  lemma {:induction false} Rotation(titles: seq<string>, i: int, m: nat)
    requires ValidTitles(titles) && 0 <= i < |titles|
    ensures Run(titles, State(i, 0, false), RotationLength(titles, i, m)).0
      == State((i + m) % |titles|, 0, false)
    decreases m
  {
    var n := |titles|;
    if m == 0 {
      ModUnique(i, n, 0, i);
    } else {
      var j := (i + 1) % n;
      NextIndex(i, n);
      Cycle(titles, i);
      Rotation(titles, j, m - 1);
      RunAppend(titles, State(i, 0, false), 2 * |titles[i]|, RotationLength(titles, j, m - 1));
      if i + 1 == n {
        ModAddN(m - 1, n);
        assert n + (m - 1) == i + m;
      } else {
        assert j + (m - 1) == i + m;
      }
    }
  }

  /**
   * The banner is periodic: from the start of any title, after the ticks
   * of `k` full rotations through the list it is back at the start of that
   * title.
   */
  lemma FullRotation(titles: seq<string>, i: int, k: nat)
    requires ValidTitles(titles) && 0 <= i < |titles|
    ensures Run(titles, State(i, 0, false), RotationLength(titles, i, k * |titles|)).0 == State(i, 0, false)
  {
    Rotation(titles, i, k * |titles|);
    ModUnique(i + k * |titles|, |titles|, k, i);
  }

  /**
   * On the page itself one full rotation through the five titles takes
   * 168 ticks, after which the banner is back in its start state.
   */
  lemma PagePeriod()
    ensures RotationLength(Titles, 0, |Titles|) == 168
    ensures Run(Titles, Start, 168).0 == Start
  {
    PageTitlesValid();
    FullRotation(Titles, 0, 1);
    assert 1 * |Titles| == |Titles|;
    var n := RotationLength(Titles, 0, |Titles|);
    assert n == 2 * (11 + 13 + 14 + 24 + 22);
  }

  /** The object the page keeps: the title list, the three state variables and the delay. */
  class Rotator {
    const titles: seq<string>
    var titleIndex: int
    var charIndex: int
    var isDeleting: bool
    var typingSpeed: int

    /** The state variables as a value. */
    function Snapshot(): State
      reads this
    {
      State(titleIndex, charIndex, isDeleting)
    }

    ghost predicate Valid()
      reads this
    {
      ValidTitles(titles) && Inv(titles, Snapshot())
    }

    constructor ()
      ensures Valid() && titles == Titles
      ensures Snapshot() == Start && typingSpeed == TypingDelay
    {
      PageTitlesValid();
      titles := Titles;
      titleIndex, charIndex, isDeleting, typingSpeed := 0, 0, false, TypingDelay;
    }

    /**
     * One tick: returns the text to show and the delay before the caller
     * should call again, and updates the state exactly as `Next` does.
     */
    method Typewrite() returns (text: string, delay: int)
      requires Valid()
      modifies this
      ensures Valid()
      ensures Next(titles, old(Snapshot())) == Transition(Snapshot(), Tick(text, delay))
      ensures typingSpeed == delay
    {
      var current := titles[titleIndex];
      if isDeleting {
        text := Substring0(current, charIndex - 1);
        charIndex := charIndex - 1;
        typingSpeed := DeletingDelay;
      } else {
        text := Substring0(current, charIndex + 1);
        charIndex := charIndex + 1;
        typingSpeed := TypingDelay;
      }
      if !isDeleting && charIndex == |current| {
        typingSpeed := EndOfWordPause;
        isDeleting := true;
      } else if isDeleting && charIndex == 0 {
        isDeleting := false;
        titleIndex := (titleIndex + 1) % |titles|;
        typingSpeed := NextWordPause;
      }
      delay := typingSpeed;
    }
  }
}
