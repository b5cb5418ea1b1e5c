/** The browser front end's mutable state (static/app.js): the tasbih
    counter, the carousel over the 99 names, and the position of the Quran
    player in the loaded surah. Each is a class whose fields are the page's
    global variables; what the page draws is left out. */
module AppState {

  // ---------------------------------------------------------------------------
  // Tasbih counter
  // ---------------------------------------------------------------------------

  /** The counter vibrates on every multiple of this, whatever the target. */
  const Round := 33

  /** What one press tells the user: nothing, a vibration, or the completion
      message together with a vibration. */
  datatype Notice = Quiet | Buzz | Completed

  /** The notice for the press that brought the count to `count`: reaching
      the target wins over a round of 33. */
  function NoticeFor(count: nat, target: int): Notice
  {
    if count == target then Completed
    else if count % Round == 0 then Buzz
    else Quiet
  }

  /** The notices of `n` presses starting from a count of 0. */
  function Notices(target: int, n: nat): (ns: seq<Notice>)
    ensures |ns| == n
    decreases n
  {
    if n == 0 then [] else Notices(target, n - 1) + [NoticeFor(n, target)]
  }

  /** The i-th press (from 0) reports the count i + 1. */
  lemma {:induction false} NoticesAt(target: int, n: nat, i: nat)
    requires i < n
    ensures Notices(target, n)[i] == NoticeFor(i + 1, target)
    decreases n
  {
    if i < n - 1 {
      NoticesAt(target, n - 1, i);
    }
  }

  /** Counting up from zero, the completion message comes exactly once: at
      the press that reaches the target, and never for a target the count
      does not reach. */
  lemma CompletedExactlyAtTarget(target: int, n: nat)
    ensures forall i :: 0 <= i < n ==> (Notices(target, n)[i] == Completed <==> i + 1 == target)
    ensures (exists i :: 0 <= i < n && Notices(target, n)[i] == Completed) <==> 1 <= target <= n
  {
    forall i | 0 <= i < n
      ensures Notices(target, n)[i] == Completed <==> i + 1 == target
    {
      NoticesAt(target, n, i);
    }
    if 1 <= target <= n {
      NoticesAt(target, n, target - 1);
      assert Notices(target, n)[target - 1] == Completed;
    }
  }

  /** With a target that is a multiple of 33 (the default one and the 99
      preset), the phone vibrates exactly on every 33rd press. */
  lemma AlertsEveryRound(target: int, n: nat)
    requires target % Round == 0
    ensures forall i :: 0 <= i < n ==> (Notices(target, n)[i] != Quiet <==> (i + 1) % Round == 0)
  {
    forall i | 0 <= i < n
      ensures Notices(target, n)[i] != Quiet <==> (i + 1) % Round == 0
    {
      NoticesAt(target, n, i);
    }
  }

  class Tasbih {
    var count: nat
    var target: int
    var dhikr: string

    /** The page's initial state: no presses, the target 33, no dhikr chosen. */
    constructor ()
      ensures count == 0 && target == Round && dhikr == ""
    {
      count := 0;
      target := Round;
      dhikr := "";
    }

    /** `incrementTasbih`: one more press, and the notice for the new count. */
    method Increment() returns (notice: Notice)
      modifies this
      ensures count == old(count) + 1 && target == old(target) && dhikr == old(dhikr)
      ensures notice == NoticeFor(count, target)
    {
      count := count + 1;
      if count == target {
        notice := Completed;
      } else if count % Round == 0 {
        notice := Buzz;
      } else {
        notice := Quiet;
      }
    }

    /** `setTarget`: a new target; the count is kept. */
    method SetTarget(t: int)
      modifies this
      ensures target == t && count == old(count) && dhikr == old(dhikr)
    {
      target := t;
    }

    /** `resetTasbih`: back to 0, keeping target and dhikr. */
    method Reset()
      modifies this
      ensures count == 0 && target == old(target) && dhikr == old(dhikr)
    {
      count := 0;
    }

    /** `setDhikr`: another dhikr starts a new count. */
    method SetDhikr(d: string)
      modifies this
      ensures dhikr == d && count == 0 && target == old(target)
    {
      dhikr := d;
      count := 0;
    }
  }

  // ---------------------------------------------------------------------------
  // The 99 names
  // ---------------------------------------------------------------------------

  /** The number of entries in the names list. */
  const NameCount := 99

  function NextName(i: int): int { (i + 1) % NameCount }

  function PrevName(i: int): int { (i - 1 + NameCount) % NameCount }

  /** The position after `k` presses of "next". */
  function Forward(i: int, k: nat): int
    decreases k
  {
    if k == 0 then i else NextName(Forward(i, k - 1))
  }

  /** "Previous" undoes "next" and "next" undoes "previous" on every
      position of the list. */
  lemma PrevUndoesNext(i: int)
    requires 0 <= i < NameCount
    ensures PrevName(NextName(i)) == i
    ensures NextName(PrevName(i)) == i
    ensures 0 <= NextName(i) < NameCount && 0 <= PrevName(i) < NameCount
  {
  }

  /** One more place round the list. */
  lemma NextOfRemainder(a: nat)
    ensures NextName(a % NameCount) == (a + 1) % NameCount
  {
    var q, r := a / NameCount, a % NameCount;
    assert a == q * NameCount + r;
    if r == NameCount - 1 {
      assert a + 1 == (q + 1) * NameCount;
    } else {
      assert a + 1 == q * NameCount + (r + 1);
    }
  }

  /** `k` presses of "next" move `k` places round the list. */
  lemma {:induction false} ForwardMoves(i: int, k: nat)
    requires 0 <= i < NameCount
    ensures Forward(i, k) == (i + k) % NameCount
    decreases k
  {
    if k > 0 {
      ForwardMoves(i, k - 1);
      NextOfRemainder(i + k - 1);
    }
  }

  /** Fewer than 99 presses of "next" never come back to the starting
      name: no name is shown twice in a round. */
  lemma NoEarlyReturn(i: int, k: nat)
    requires 0 <= i < NameCount && 0 < k < NameCount
    ensures Forward(i, k) != i
  {
    ForwardMoves(i, k);
    var s := i + k;
    if s < NameCount {
      assert s % NameCount == s;
    } else {
      assert s % NameCount == s - NameCount;
    }
  }

  /** Pressing "next" 99 times from any name comes back to it. */
  lemma FullRound(i: int)
    requires 0 <= i < NameCount
    ensures Forward(i, NameCount) == i
  {
    var s := i + NameCount;
    assert s % NameCount == i;
    ForwardMoves(i, NameCount);
  }

  /** Every name is reached from every other by pressing "next": `j` is
      `(j - i) mod 99` presses away from `i`. */
  lemma NextReaches(i: int, j: int)
    requires 0 <= i < NameCount && 0 <= j < NameCount
    ensures Forward(i, (j - i + NameCount) % NameCount) == j
  {
    var k := (j - i + NameCount) % NameCount;
    ForwardMoves(i, k);
    if i <= j {
      assert k == j - i;
    } else {
      assert k == j - i + NameCount;
      assert (i + k) % NameCount == j;
    }
  }

  class NamesCarousel {
    var index: int

    predicate Valid()
      reads this
    {
      0 <= index < NameCount
    }

    constructor ()
      ensures Valid() && index == 0
    {
      index := 0;
    }

    /** `nextName`. */
    method Next()
      requires Valid()
      modifies this
      ensures Valid() && index == NextName(old(index))
    {
      index := (index + 1) % NameCount;
    }

    /** `prevName`. */
    method Prev()
      requires Valid()
      modifies this
      ensures Valid() && index == PrevName(old(index))
    {
      index := (index - 1 + NameCount) % NameCount;
    }

    /** `displayName(i)` from the list: a position outside the list (there
        is no such name) changes nothing. */
    method Show(i: int)
      requires Valid()
      modifies this
      ensures Valid()
      ensures index == if 0 <= i < NameCount then i else old(index)
    {
      if 0 <= i < NameCount {
        index := i;
      }
    }

    /** `randomName`, given the value `r` of `Math.random()` in [0, 1). */
    method Random(r: real)
      requires 0.0 <= r < 1.0
      modifies this
      ensures Valid() && index == (r * NameCount as real).Floor
    {
      index := (r * NameCount as real).Floor;
    }
  }

  // ---------------------------------------------------------------------------
  // Quran player position
  // ---------------------------------------------------------------------------

  /** `nextAyah`: one verse on, unless already on the last. */
  function NextAyah(count: nat, i: int): int
  {
    if i < count - 1 then i + 1 else i
  }

  /** `prevAyah`: one verse back, unless already on the first. */
  function PrevAyah(i: int): int
  {
    if i > 0 then i - 1 else i
  }

  /** The audio element's `ended` handler: play the next verse; after the
      last, start over from the first when repeat is on, else stay. */
  function AfterEnded(count: nat, i: int, repeat: bool): int
  {
    if i < count - 1 then NextAyah(count, i)
    else if repeat then 0
    else i
  }

  /** The verse reached after `k` verses have finished playing, from `i`. */
  function PlayFor(count: nat, i: int, repeat: bool, k: nat): int
    decreases k
  {
    if k == 0 then i else AfterEnded(count, PlayFor(count, i, repeat, k - 1), repeat)
  }

  /** A valid position: a verse of the surah, or 0 while no surah is loaded. */
  predicate InSurah(count: nat, i: int)
  {
    0 <= i && (i < count || i == 0)
  }

  /** Every move keeps the player on a verse of the surah, and "next" and
      "previous" undo each other away from the ends. */
  lemma MovesStayInSurah(count: nat, i: int, repeat: bool)
    requires InSurah(count, i)
    ensures InSurah(count, NextAyah(count, i))
    ensures InSurah(count, PrevAyah(i))
    ensures InSurah(count, AfterEnded(count, i, repeat))
    ensures i < count - 1 ==> PrevAyah(NextAyah(count, i)) == i
    ensures i > 0 ==> NextAyah(count, PrevAyah(i)) == i
  {
  }

  /** Without repeat, playing from the first verse runs through the surah in
      order and stays on the last verse once it has been played. */
  lemma {:induction false} PlaysThrough(count: nat, k: nat)
    requires count >= 1
    ensures PlayFor(count, 0, false, k) == if k < count then k else count - 1
    decreases k
  {
    if k > 0 {
      PlaysThrough(count, k - 1);
    }
  }

  /** With repeat on, playing from the first verse cycles through the surah:
      after `rounds` whole passes and `r` more verses the player is on verse
      `r`. */
  lemma {:induction false} RepeatCycles(count: nat, rounds: nat, r: nat)
    requires r < count
    ensures PlayFor(count, 0, true, rounds * count + r) == r
    decreases rounds * count + r
  {
    if r > 0 {
      RepeatCycles(count, rounds, r - 1);
    } else if rounds > 0 {
      assert rounds * count + r - 1 == (rounds - 1) * count + (count - 1);
      RepeatCycles(count, rounds - 1, count - 1);
    }
  }

  /** The same, as the remainder: after `k` verses the player is on verse
      `k mod count`. */
  lemma RepeatPosition(count: nat, k: nat)
    requires count >= 1
    ensures PlayFor(count, 0, true, k) == k % count
  {
    var rounds, r := k / count, k % count;
    assert k == rounds * count + r;
    RepeatCycles(count, rounds, r);
  }

  class QuranPlayer {
    /** The number of verses of the loaded surah (`ayahsData.length`). */
    var ayahCount: nat
    /** `currentAyahIndex`. */
    var index: int
    /** `isRepeat`. */
    var repeat: bool
    /** The number of items in the verse navigator, which is rebuilt only
        after a complete load. */
    var listed: nat

    predicate Valid()
      reads this
    {
      InSurah(ayahCount, index)
    }

    constructor ()
      ensures Valid() && ayahCount == 0 && index == 0 && !repeat && listed == 0
    {
      ayahCount := 0;
      index := 0;
      repeat := false;
      listed := 0;
    }

    /** `loadSurah` once the `n` verses have arrived (a failure before that
        changes nothing). The verses are replaced first; the index goes back
        to the first verse only if the translation that follows does not
        fail; so is the navigator, which then lists the new verses. When it
        does fail, the old index and the old navigator are kept, and both may
        reach past the end of the new surah. */
    method LoadSurah(n: nat, translationFails: bool)
      modifies this
      ensures ayahCount == n && repeat == old(repeat)
      ensures index == if translationFails then old(index) else 0
      ensures listed == if translationFails then old(listed) else n
      ensures !translationFails ==> Valid()
      ensures Valid() <==> InSurah(n, index)
    {
      ayahCount := n;
      if !translationFails {
        index := 0;
        listed := n;
      }
    }

    /** A click on item `i` of the navigator. The navigator may still list
        the verses of an earlier surah, so the position it sets is valid
        exactly when it is a verse of the current one. */
    method Select(i: int)
      requires 0 <= i < listed
      modifies this
      ensures index == i && ayahCount == old(ayahCount) && repeat == old(repeat) && listed == old(listed)
      ensures Valid() <==> InSurah(ayahCount, i)
    {
      index := i;
    }

    /** `nextAyah`; from a stale index past the end it stays put. */
    method Next()
      modifies this
      ensures index == NextAyah(ayahCount, old(index))
      ensures old(Valid()) ==> Valid()
      ensures ayahCount == old(ayahCount) && repeat == old(repeat) && listed == old(listed)
    {
      if index < ayahCount - 1 {
        index := index + 1;
      }
    }

    /** `prevAyah`; from a stale index past the end it steps down through
        indices that hold no verse. */
    method Prev()
      modifies this
      ensures index == PrevAyah(old(index))
      ensures old(Valid()) ==> Valid()
      ensures ayahCount == old(ayahCount) && repeat == old(repeat) && listed == old(listed)
    {
      if index > 0 {
        index := index - 1;
      }
    }

    /** `toggleRepeat`. */
    method ToggleRepeat()
      modifies this
      ensures repeat == !old(repeat) && index == old(index) && ayahCount == old(ayahCount)
      ensures listed == old(listed)
    {
      repeat := !repeat;
    }

    /** The `ended` event of the audio element. */
    method Ended()
      modifies this
      ensures index == AfterEnded(ayahCount, old(index), repeat)
      ensures old(Valid()) ==> Valid()
      ensures ayahCount == old(ayahCount) && repeat == old(repeat) && listed == old(listed)
    {
      if index < ayahCount - 1 {
        Next();
      } else if repeat {
        index := 0;
      }
    }
  }
}
