/** The conference itinerary: entries that share a time slot with the entry
    before them are shown together, the collapsed view shows the first five
    slots, and each entry type has its own badge style. */
module Itinerary {
  import opened Text
  import opened Seqs

  datatype Entry = Entry(time: string, activity: string, description: Option<string>, kind: string, location: Option<string>)

  /** The entries of the groups, one group after the other. */
  function Flatten(groups: seq<seq<Entry>>): seq<Entry> {
    if groups == [] then [] else Flatten(groups[..|groups| - 1]) + groups[|groups| - 1]
  }

  /** Every group is non-empty, all its entries have its first entry's time,
      and neighbouring groups have different times. */
  predicate WellGrouped(groups: seq<seq<Entry>>) {
    && (forall i :: 0 <= i < |groups| ==> |groups[i]| > 0)
    && (forall i, j :: 0 <= i < |groups| && 0 <= j < |groups[i]| ==> groups[i][j].time == groups[i][0].time)
    && (forall i :: 0 < i < |groups| ==> groups[i][0].time != groups[i - 1][0].time)
  }

  /** One step of the `reduce`: the entry joins the last group when its
      time equals that group's first time, and opens a new group otherwise. */
  function Push(acc: seq<seq<Entry>>, current: Entry): (r: seq<seq<Entry>>)
    requires forall i :: 0 <= i < |acc| ==> |acc[i]| > 0
    ensures forall i :: 0 <= i < |r| ==> |r[i]| > 0
  {
    if |acc| > 0 && acc[|acc| - 1][0].time == current.time then acc[..|acc| - 1] + [acc[|acc| - 1] + [current]]
    else acc + [[current]]
  }

  /** The `reduce` over the whole schedule. */
  function Grouped(schedule: seq<Entry>): (groups: seq<seq<Entry>>)
    ensures forall i :: 0 <= i < |groups| ==> |groups[i]| > 0
  {
    if schedule == [] then [] else Push(Grouped(schedule[..|schedule| - 1]), schedule[|schedule| - 1])
  }

  /** The grouping as the component computes it, pushing into the last
      group in place. */
  method GroupByTime(schedule: seq<Entry>) returns (acc: seq<seq<Entry>>)
    ensures acc == Grouped(schedule)
  {
    acc := [];
    for i := 0 to |schedule|
      invariant acc == Grouped(schedule[..i])
    {
      var current := schedule[i];
      assert schedule[..i + 1][..i] == schedule[..i];
      if |acc| > 0 && acc[|acc| - 1][0].time == current.time {
        var lastGroup := acc[|acc| - 1];
        acc := acc[..|acc| - 1] + [lastGroup + [current]];
      } else {
        acc := acc + [[current]];
      }
    }
    assert schedule[..|schedule|] == schedule;
  }

  lemma FlattenSnoc(groups: seq<seq<Entry>>, g: seq<Entry>)
    ensures Flatten(groups + [g]) == Flatten(groups) + g
  {
    assert (groups + [g])[..|groups|] == groups;
  }

  lemma PushFlatten(acc: seq<seq<Entry>>, current: Entry)
    requires forall i :: 0 <= i < |acc| ==> |acc[i]| > 0
    ensures Flatten(Push(acc, current)) == Flatten(acc) + [current]
  {
    if |acc| > 0 && acc[|acc| - 1][0].time == current.time {
      var front, last := acc[..|acc| - 1], acc[|acc| - 1];
      assert acc == front + [last];
      FlattenSnoc(front, last);
      FlattenSnoc(front, last + [current]);
    } else {
      FlattenSnoc(acc, [current]);
    }
  }

  /** Concatenating the groups gives back the schedule, in order. */
  lemma {:induction false} GroupedFlatten(schedule: seq<Entry>)
    ensures Flatten(Grouped(schedule)) == schedule
  {
    if schedule != [] {
      var init, current := schedule[..|schedule| - 1], schedule[|schedule| - 1];
      GroupedFlatten(init);
      PushFlatten(Grouped(init), current);
      assert init + [current] == schedule;
    }
  }

  lemma PushWellGrouped(acc: seq<seq<Entry>>, current: Entry)
    requires WellGrouped(acc)
    ensures WellGrouped(Push(acc, current))
  {
    var r := Push(acc, current);
    if |acc| > 0 && acc[|acc| - 1][0].time == current.time {
      var n := |acc| - 1;
      assert forall i :: 0 <= i < n ==> r[i] == acc[i];
      assert r[n] == acc[n] + [current];
      forall j | 0 <= j < |r[n]| ensures r[n][j].time == r[n][0].time {
        if j < |acc[n]| {
          assert r[n][j] == acc[n][j];
        }
      }
    } else {
      assert forall i :: 0 <= i < |acc| ==> r[i] == acc[i];
    }
  }

  /** The groups are non-empty, share one time each, and neighbours differ:
      only consecutive entries with equal times merge. */
  lemma {:induction false} GroupedWellGrouped(schedule: seq<Entry>)
    ensures WellGrouped(Grouped(schedule))
  {
    if schedule != [] {
      GroupedWellGrouped(schedule[..|schedule| - 1]);
      PushWellGrouped(Grouped(schedule[..|schedule| - 1]), schedule[|schedule| - 1]);
    }
  }

  /** Undoing a step that opened a new group. */
  lemma PushOpened(front: seq<seq<Entry>>, e: Entry)
    requires WellGrouped(front + [[e]])
    ensures WellGrouped(front)
    ensures Push(front, e) == front + [[e]]
  {
    var groups := front + [[e]];
    assert forall i :: 0 <= i < |front| ==> groups[i] == front[i];
    if |front| > 0 {
      assert groups[|front|][0].time != groups[|front| - 1][0].time;
    }
  }

  /** Undoing a step that joined the last group. */
  lemma PushJoined(front: seq<seq<Entry>>, g: seq<Entry>, e: Entry)
    requires |g| > 0 && WellGrouped(front + [g + [e]])
    ensures WellGrouped(front + [g])
    ensures Push(front + [g], e) == front + [g + [e]]
  {
    var groups, shorter := front + [g + [e]], front + [g];
    assert forall i :: 0 <= i < |front| ==> groups[i] == front[i] && shorter[i] == front[i];
    assert groups[|front|][|g|] == e;
    assert forall j :: 0 <= j < |g| ==> groups[|front|][j] == g[j];
    assert (front + [g])[..|front|] == front;
  }

  /** The grouping is the only well-formed one: any split of the schedule
      into groups with one time each and different neighbouring times is
      the one the component computes. */
  lemma {:induction false} GroupingUnique(groups: seq<seq<Entry>>, schedule: seq<Entry>)
    requires WellGrouped(groups) && Flatten(groups) == schedule
    ensures groups == Grouped(schedule)
    decreases |schedule|
  {
    if groups == [] {
      return;
    }
    var front, last := groups[..|groups| - 1], groups[|groups| - 1];
    assert groups == front + [last];
    FlattenSnoc(front, last);
    var init, e := schedule[..|schedule| - 1], schedule[|schedule| - 1];
    var g := last[..|last| - 1];
    assert last == g + [e];
    assert init == Flatten(front) + g;
    if |last| == 1 {
      assert last == [e] && init == Flatten(front);
      PushOpened(front, e);
      GroupingUnique(front, init);
    } else {
      PushJoined(front, g, e);
      FlattenSnoc(front, g);
      GroupingUnique(front + [g], init);
    }
  }

  /** The groups shown: all of them when expanded, the first five otherwise. */
  function Visible(groups: seq<seq<Entry>>, isExpanded: bool): (r: seq<seq<Entry>>)
    ensures isExpanded ==> r == groups
    ensures !isExpanded ==> |r| == (if |groups| < 5 then |groups| else 5) && r == groups[..|r|]
  {
    if isExpanded then groups else Take(groups, 5)
  }

  /** `getTypeStyles`, as the list of its Tailwind classes (background,
      text, border; the source writes them space-separated in one string):
      each of the six known event types has its own colours, and any other
      type falls back to the neutral default. */
  function TypeStyles(kind: string): (r: seq<string>)
    ensures |r| == 3
    ensures kind in KnownTypes <==> r != DefaultTypeStyle
  {
    match kind
    case "ceremony" => ["bg-purple-100", "text-purple-800", "border-purple-200"]
    case "technical" => ["bg-blue-100", "text-blue-800", "border-blue-200"]
    case "meeting" => ["bg-indigo-100", "text-indigo-800", "border-indigo-200"]
    case "competition" => ["bg-red-100", "text-red-800", "border-red-200"]
    case "social" => ["bg-green-100", "text-green-800", "border-green-200"]
    case "break" => ["bg-gray-100", "text-gray-700", "border-gray-200"]
    case _ => DefaultTypeStyle
  }

  const DefaultTypeStyle: seq<string> := ["bg-gray-50", "text-gray-600", "border-gray-200"]

  const KnownTypes: seq<string> := ["ceremony", "technical", "meeting", "competition", "social", "break"]

  /** Each of the six known types has a style of its own, and every other
      string gets the default, which no known type uses. */
  lemma TypeStylesDistinct(a: string, b: string)
    ensures a in KnownTypes && b in KnownTypes && a != b ==> TypeStyles(a) != TypeStyles(b)
    ensures a !in KnownTypes ==> TypeStyles(a) == DefaultTypeStyle
    ensures a in KnownTypes ==> TypeStyles(a) != DefaultTypeStyle
  {
  }
}
