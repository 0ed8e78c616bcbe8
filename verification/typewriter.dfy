/** The hero section's typing animation: a prefix of the current title grows one
    character per tick, pauses, shrinks one character per tick, and the next
    title starts. Each tick yields the text to show and the delay before the next
    tick; arming the timer itself belongs to the browser. */
module Typewriter {
  import opened JsString

  /** Delays, in milliseconds, chosen by a tick for the tick after it. */
  const TypeDelay: nat := 100
  const DeleteDelay: nat := 50
  const PauseAtEnd: nat := 2000
  const PauseBeforeNext: nat := 500

  /** The titles the page cycles through. */
  const Titles: seq<string> := ["Data Analyst", "Business Analytics MBA", "Storyteller with Data"]

  datatype TypeState = TypeState(titleIndex: nat, charIndex: int, deleting: bool)

  /** What one tick produces: the text shown, the delay it asks for, and the state after it. */
  datatype Frame = Frame(text: string, delay: nat, next: TypeState)

  /** The state the script declares before its first tick. */
  const Start := TypeState(0, 0, false)

  /** One call of the tick handler. */
  function Step(titles: seq<string>, s: TypeState): (f: Frame)
    requires s.titleIndex < |titles|
    ensures f.next.titleIndex < |titles|
    // the text shown is always the prefix of the title being worked on, cut at the new charIndex
    ensures f.text == titles[s.titleIndex][..Clamp(f.next.charIndex, |titles[s.titleIndex]|)]
    // typing: one character more; turns to deleting, with a long pause, exactly at full length
    ensures !s.deleting ==> f.next.charIndex == s.charIndex + 1
    ensures !s.deleting ==> f.next.titleIndex == s.titleIndex
    ensures !s.deleting ==> (f.next.deleting <==> f.next.charIndex == |titles[s.titleIndex]|)
    ensures !s.deleting ==> f.delay == (if f.next.deleting then PauseAtEnd else TypeDelay)
    // deleting: one character less; moves on to the next title, cyclically, exactly at zero
    ensures s.deleting ==> f.next.charIndex == s.charIndex - 1
    ensures s.deleting ==> (f.next.deleting <==> f.next.charIndex != 0)
    ensures s.deleting ==> f.next.titleIndex ==
                           (if f.next.deleting then s.titleIndex else (s.titleIndex + 1) % |titles|)
    ensures s.deleting ==> f.delay == (if f.next.deleting then DeleteDelay else PauseBeforeNext)
  {
    var title := titles[s.titleIndex];
    var text := if s.deleting then Substring(title, 0, s.charIndex - 1)
                else Substring(title, 0, s.charIndex + 1);
    var c := if s.deleting then s.charIndex - 1 else s.charIndex + 1;
    var speed := if s.deleting then DeleteDelay else TypeDelay;
    if !s.deleting && c == |title| then
      Frame(text, PauseAtEnd, TypeState(s.titleIndex, c, true))
    else if s.deleting && c == 0 then
      Frame(text, PauseBeforeNext, TypeState((s.titleIndex + 1) % |titles|, c, false))
    else
      Frame(text, speed, TypeState(s.titleIndex, c, s.deleting))
  }

  /** The state after n ticks. */
  function Iterate(titles: seq<string>, s: TypeState, n: nat): (t: TypeState)
    requires s.titleIndex < |titles|
    ensures t.titleIndex < |titles|
    decreases n
  {
    if n == 0 then s else Iterate(titles, Step(titles, s).next, n - 1)
  }

  /** Every title has at least one character. */
  ghost predicate WellFormed(titles: seq<string>)
  {
    && |titles| > 0
    && forall i :: 0 <= i < |titles| ==> |titles[i]| > 0
  }

  /** The reachable states: the index names a title, charIndex lies within it,
      a deleting state still has a character to remove, and a typing state still
      has a character to add. */
  ghost predicate Inv(titles: seq<string>, s: TypeState)
  {
    && s.titleIndex < |titles|
    && 0 <= s.charIndex <= |titles[s.titleIndex]|
    && (s.deleting ==> s.charIndex >= 1)
    && (!s.deleting ==> s.charIndex < |titles[s.titleIndex]|)
  }

  lemma StartInv(titles: seq<string>)
    requires WellFormed(titles)
    ensures Inv(titles, Start)
  {
  }

  /** A tick keeps the invariant, and the text it shows is exactly the
      charIndex-prefix of the title the next state names. */
  lemma StepInv(titles: seq<string>, s: TypeState)
    requires WellFormed(titles)
    requires Inv(titles, s)
    ensures Inv(titles, Step(titles, s).next)
    ensures Step(titles, s).text
            == titles[Step(titles, s).next.titleIndex][..Step(titles, s).next.charIndex]
  {
  }

  /** Every state reached from a state satisfying the invariant satisfies it. */
  lemma {:induction false} IterateInv(titles: seq<string>, s: TypeState, n: nat)
    requires WellFormed(titles)
    requires Inv(titles, s)
    ensures Inv(titles, Iterate(titles, s, n))
    decreases n
  {
    if n > 0 {
      StepInv(titles, s);
      IterateInv(titles, Step(titles, s).next, n - 1);
    }
  }

  /** Running a + b ticks is running a ticks, then b more. */
  lemma {:induction false} IterateAdd(titles: seq<string>, s: TypeState, a: nat, b: nat)
    requires s.titleIndex < |titles|
    ensures Iterate(titles, s, a + b) == Iterate(titles, Iterate(titles, s, a), b)
    decreases a
  {
    if a > 0 {
      IterateAdd(titles, Step(titles, s).next, a - 1, b);
    }
  }

  /** While typing, k ticks add k characters as long as the title is not complete. */
  lemma {:induction false} TypingRun(titles: seq<string>, i: nat, c: nat, k: nat)
    requires i < |titles|
    requires c + k < |titles[i]|
    ensures Iterate(titles, TypeState(i, c, false), k) == TypeState(i, c + k, false)
    decreases k
  {
    if k > 0 {
      assert Step(titles, TypeState(i, c, false)).next == TypeState(i, c + 1, false);
      TypingRun(titles, i, c + 1, k - 1);
    }
  }

  /** While deleting, k ticks remove k characters as long as one is left. */
  lemma {:induction false} DeletingRun(titles: seq<string>, i: nat, c: nat, k: nat)
    requires i < |titles|
    requires k < c
    ensures Iterate(titles, TypeState(i, c, true), k) == TypeState(i, c - k, true)
    decreases k
  {
    if k > 0 {
      assert Step(titles, TypeState(i, c, true)).next == TypeState(i, c - 1, true);
      DeletingRun(titles, i, c - 1, k - 1);
    }
  }

  /** A title of n characters takes exactly 2n ticks: n to type it, n to delete
      it, and then the next title, cyclically, starts from nothing; no earlier
      tick reaches that state. */
  lemma TitleCycle(titles: seq<string>, i: nat)
    requires i < |titles|
    requires |titles[i]| > 0
    ensures Iterate(titles, TypeState(i, 0, false), 2 * |titles[i]|)
            == TypeState((i + 1) % |titles|, 0, false)
    ensures forall k :: 0 < k < 2 * |titles[i]| ==>
              Iterate(titles, TypeState(i, 0, false), k) != TypeState((i + 1) % |titles|, 0, false)
  {
    var n := |titles[i]|;
    var s := TypeState(i, 0, false);
    TypingRun(titles, i, 0, n - 1);
    IterateAdd(titles, s, n - 1, 1);
    assert Iterate(titles, s, n) == TypeState(i, n, true);
    DeletingRun(titles, i, n, n - 1);
    IterateAdd(titles, TypeState(i, n, true), n - 1, 1);
    assert Iterate(titles, TypeState(i, n, true), n) == TypeState((i + 1) % |titles|, 0, false);
    IterateAdd(titles, s, n, n);
    forall k | 0 < k < 2 * n
      ensures Iterate(titles, s, k) != TypeState((i + 1) % |titles|, 0, false)
    {
      if k < n {
        // still typing: charIndex is k, not 0
        TypingRun(titles, i, 0, k);
      } else {
        // deleting: the state still has its deleting flag set
        IterateAdd(titles, s, n, k - n);
        DeletingRun(titles, i, n, k - n);
      }
    }
  }

  /** Ticks needed to type and delete the first k titles. */
  function PeriodUpTo(titles: seq<string>, k: nat): nat
    requires k <= |titles|
  {
    if k == 0 then 0 else PeriodUpTo(titles, k - 1) + 2 * |titles[k - 1]|
  }

  /** Ticks in one full round through all titles. */
  function Period(titles: seq<string>): nat
  {
    PeriodUpTo(titles, |titles|)
  }

  /** The index after i, cyclically, written without the remainder. */
  lemma NextIndex(i: nat, n: nat)
    requires i < n
    ensures (i + 1) % n == if i + 1 < n then i + 1 else 0
  {
  }

  /** One more title: from the start of title i, one title cycle later the next one starts. */
  lemma AfterNextTitle(titles: seq<string>, start: TypeState, before: nat, i: nat)
    requires i < |titles|
    requires |titles[i]| > 0
    requires start.titleIndex < |titles|
    requires Iterate(titles, start, before) == TypeState(i, 0, false)
    ensures Iterate(titles, start, before + 2 * |titles[i]|)
            == TypeState(if i + 1 < |titles| then i + 1 else 0, 0, false)
  {
    var cycle := 2 * |titles[i]|;
    IterateAdd(titles, start, before, cycle);
    assert Iterate(titles, start, before + cycle) == Iterate(titles, TypeState(i, 0, false), cycle);
    TitleCycle(titles, i);
    NextIndex(i, |titles|);
  }

  /** After typing and deleting the first k titles the animation starts title k,
      or title 0 again once every title has had its turn. */
  lemma {:induction false} AfterTitles(titles: seq<string>, k: nat)
    requires WellFormed(titles)
    requires k <= |titles|
    ensures Iterate(titles, Start, PeriodUpTo(titles, k))
            == TypeState(if k < |titles| then k else 0, 0, false)
    decreases k
  {
    if k > 0 {
      AfterTitles(titles, k - 1);
      AfterNextTitle(titles, Start, PeriodUpTo(titles, k - 1), k - 1);
    }
  }

  /** The animation is periodic: after one round through all titles it is back
      at its starting state. */
  lemma PeriodReturnsToStart(titles: seq<string>)
    requires WellFormed(titles)
    ensures Iterate(titles, Start, Period(titles)) == Start
  {
    AfterTitles(titles, |titles|);
  }

  /** The page's own titles satisfy the invariant's premise, and one round
      through them takes 110 ticks. */
  lemma PageTitles()
    ensures WellFormed(Titles)
    ensures Period(Titles) == 110
    ensures Iterate(Titles, Start, 110) == Start
  {
    assert |Titles[0]| == 12 && |Titles[1]| == 22 && |Titles[2]| == 21;
    assert PeriodUpTo(Titles, 1) == 24;
    assert PeriodUpTo(Titles, 2) == 68;
    PeriodReturnsToStart(Titles);
  }

  /** Why titles must be non-empty: on an empty title the typing phase never
      ends, charIndex grows past the length and the text stays empty. */
  lemma {:induction false} EmptyTitleTypesForever(titles: seq<string>, i: nat, c: nat, n: nat)
    requires i < |titles|
    requires titles[i] == ""
    ensures Iterate(titles, TypeState(i, c, false), n) == TypeState(i, c + n, false)
    decreases n
  {
    if n > 0 {
      assert Step(titles, TypeState(i, c, false)).next == TypeState(i, c + 1, false);
      EmptyTitleTypesForever(titles, i, c + 1, n - 1);
    }
  }
}
