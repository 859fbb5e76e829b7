/** The fixed table of teaching slots of src/utils/slotTimings.ts. */
module SlotTimings {
  import opened Text

  /** The ten 50-minute slots of a day, in order. */
  const SLOT_TIMINGS: seq<string> := [
    "8:00 - 8:50",
    "8:50 - 9:40",
    "9:40 - 10:30",
    "10:45 - 11:35",
    "11:35 - 12:25",
    "12:25 - 1:15",
    "1:15 - 2:05",
    "2:05 - 2:55",
    "2:55 - 3:45",
    "3:45 - 4:35"
  ]

  const BREAK_TIME: string := "10:30 - 10:45"

  /** `SLOT_TIMINGS[slotIndex] || \`Slot ${slotIndex + 1}\``: an index outside
      the table reads `undefined`, which is falsy, and so does an empty entry. */
  function GetSlotTiming(slotIndex: int): (r: string)
    ensures 0 <= slotIndex < 10 ==> r == SLOT_TIMINGS[slotIndex]
    ensures !(0 <= slotIndex < 10) ==> r == "Slot " + IntToString(slotIndex + 1)
  {
    if 0 <= slotIndex < |SLOT_TIMINGS| && SLOT_TIMINGS[slotIndex] != "" then SLOT_TIMINGS[slotIndex]
    else "Slot " + IntToString(slotIndex + 1)
  }

  function GetTotalSlots(): (n: nat)
    ensures n == 10
  {
    |SLOT_TIMINGS|
  }

  /** The index at which " - " separates the start from the end of a timing,
      searching from `from`; `|t|` when there is none. */
  function SeparatorFrom(t: string, from: nat): (k: nat)
    requires from <= |t|
    ensures from <= k <= |t|
    ensures k < |t| ==> HasAt(t, k, " - ")
    decreases |t| - from
  {
    if from + 3 > |t| then |t|
    else if t[from] == ' ' && t[from + 1] == '-' && t[from + 2] == ' ' then from
    else SeparatorFrom(t, from + 1)
  }

  function StartOf(t: string): string {
    t[..SeparatorFrom(t, 0)]
  }

  function EndOf(t: string): string {
    var k := SeparatorFrom(t, 0);
    if k + 3 <= |t| then t[k + 3..] else ""
  }

  lemma {:induction false} SeparatorAfter(a: string, b: string, from: nat)
    requires from <= |a|
    requires forall k :: 0 <= k < |a| ==> a[k] != ' '
    ensures SeparatorFrom(a + " - " + b, from) == |a|
    decreases |a| - from
  {
    var t := a + " - " + b;
    if from < |a| {
      assert t[from] == a[from];
      SeparatorAfter(a, b, from + 1);
    }
  }

  /** A timing written `a - b`, with no space in `a`, starts at `a` and ends at `b`. */
  lemma {:induction false} StartAndEnd(a: string, b: string)
    requires forall k :: 0 <= k < |a| ==> a[k] != ' '
    ensures StartOf(a + " - " + b) == a && EndOf(a + " - " + b) == b
  {
    SeparatorAfter(a, b, 0);
    var t := a + " - " + b;
    assert t[..|a|] == a;
    assert t[|a| + 3..] == b;
  }

  /** The start and end of each slot, as written in the table. */
  const STARTS: seq<string> := ["8:00", "8:50", "9:40", "10:45", "11:35", "12:25", "1:15", "2:05", "2:55", "3:45"]
  const ENDS: seq<string> := ["8:50", "9:40", "10:30", "11:35", "12:25", "1:15", "2:05", "2:55", "3:45", "4:35"]

  lemma TimingParts(j: int)
    requires 0 <= j < 10
    ensures StartOf(SLOT_TIMINGS[j]) == STARTS[j] && EndOf(SLOT_TIMINGS[j]) == ENDS[j]
  {
    var a, b := STARTS[j], ENDS[j];
    assert SLOT_TIMINGS[j] == a + " - " + b by {
      if j == 0 {} else if j == 1 {} else if j == 2 {} else if j == 3 {} else if j == 4 {}
      else if j == 5 {} else if j == 6 {} else if j == 7 {} else if j == 8 {} else {}
    }
    assert forall k :: 0 <= k < |a| ==> a[k] != ' ' by {
      if j == 0 {} else if j == 1 {} else if j == 2 {} else if j == 3 {} else if j == 4 {}
      else if j == 5 {} else if j == 6 {} else if j == 7 {} else if j == 8 {} else {}
    }
    StartAndEnd(a, b);
  }

  /** Consecutive slots meet, except between index 2 and index 3, where the
      break lies. */
  lemma SlotsAreContiguous(i: int)
    requires 0 <= i < 9 && i != 2
    ensures EndOf(SLOT_TIMINGS[i]) == StartOf(SLOT_TIMINGS[i + 1])
  {
    TimingParts(i);
    TimingParts(i + 1);
  }

  /** The break starts where index 2 ends and ends where index 3 starts, and
      it is a real gap: index 2 does not end where index 3 starts. */
  lemma BreakFillsTheGap()
    ensures StartOf(BREAK_TIME) == EndOf(SLOT_TIMINGS[2])
    ensures EndOf(BREAK_TIME) == StartOf(SLOT_TIMINGS[3])
    ensures EndOf(SLOT_TIMINGS[2]) != StartOf(SLOT_TIMINGS[3])
  {
    TimingParts(2);
    TimingParts(3);
    assert BREAK_TIME == ENDS[2] + " - " + STARTS[3];
    StartAndEnd(ENDS[2], STARTS[3]);
  }
}
