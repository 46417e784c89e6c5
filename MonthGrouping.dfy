/**
 * The month grouping of the report's weekdays: a `reduce` that pushes each day onto the bucket
 * of its month in a dictionary, read back with `Object.entries` in key-insertion order.
 */
module MonthGrouping {
  import opened AttendanceTypes

  /** The month heading a day is listed under. */
  function Key(d: Day): Month {
    MonthOf(d.date)
  }

  /** One table of the grid: a month heading and the days listed under it. */
  datatype Group = Group(month: Month, days: seq<Day>)

  /** The months of `days`, each once, in the order of their first appearance. */
  function MonthsInOrder(days: seq<Day>): (ms: seq<Month>)
  {
    if days == [] then []
    else
      var ms := MonthsInOrder(days[..|days| - 1]);
      var m := Key(days[|days| - 1]);
      if m in ms then ms else ms + [m]
  }

  /** The days of `days` that fall in month `m`, in input order. */
  function DaysIn(days: seq<Day>, m: Month): (g: seq<Day>)
  {
    if days == [] then []
    else
      var g := DaysIn(days[..|days| - 1], m);
      if Key(days[|days| - 1]) == m then g + [days[|days| - 1]] else g
  }

  /** One group per month of `ms`, in that order, holding the days of that month. */
  function GroupsFor(days: seq<Day>, ms: seq<Month>): (gs: seq<Group>)
    ensures |gs| == |ms|
    ensures forall i :: 0 <= i < |ms| ==> gs[i] == Group(ms[i], DaysIn(days, ms[i]))
  {
    if ms == [] then []
    else [Group(ms[0], DaysIn(days, ms[0]))] + GroupsFor(days, ms[1..])
  }

  /** The groups the view renders for `days`, one table per month. */
  function Grouped(days: seq<Day>): seq<Group> {
    GroupsFor(days, MonthsInOrder(days))
  }

  /** All days of the groups, group after group. */
  function Flatten(gs: seq<Group>): seq<Day> {
    if gs == [] then [] else gs[0].days + Flatten(gs[1..])
  }

  predicate Distinct(ms: seq<Month>) {
    forall i, j :: 0 <= i < j < |ms| ==> ms[i] != ms[j]
  }

  /** A month is listed exactly when some day falls in it, and then its bucket is non-empty. */
  lemma {:induction false} ListedExactlyWhenPresent(days: seq<Day>, m: Month)
    ensures m in MonthsInOrder(days) <==> exists k :: 0 <= k < |days| && Key(days[k]) == m
    ensures DaysIn(days, m) != [] <==> m in MonthsInOrder(days)
  {
    if days != [] {
      var init := days[..|days| - 1];
      ListedExactlyWhenPresent(init, m);
      assert forall k :: 0 <= k < |init| ==> init[k] == days[k];
      if m in MonthsInOrder(days) && Key(days[|days| - 1]) != m {
        var k :| 0 <= k < |init| && Key(init[k]) == m;
        assert Key(days[k]) == m;
      }
    }
  }

  /** The months are listed without repetition. */
  lemma {:induction false} MonthsListedOnce(days: seq<Day>)
    ensures Distinct(MonthsInOrder(days))
  {
    if days != [] {
      MonthsListedOnce(days[..|days| - 1]);
    }
  }

  /** Every day in the bucket of `m` falls in `m`. */
  lemma {:induction false} BucketHoldsOnlyItsMonth(days: seq<Day>, m: Month)
    ensures forall d :: d in DaysIn(days, m) ==> Key(d) == m
  {
    if days != [] {
      BucketHoldsOnlyItsMonth(days[..|days| - 1], m);
    }
  }

  /**
   * The input positions the bucket of `m` was filled from: increasing, exactly the positions
   * of the days that fall in `m`, so the bucket lists those days in input order.
   */
  ghost function PositionsIn(days: seq<Day>, m: Month): (ps: seq<int>)
    ensures |ps| == |DaysIn(days, m)|
    ensures forall t :: 0 <= t < |ps| ==> 0 <= ps[t] < |days| && Key(days[ps[t]]) == m && DaysIn(days, m)[t] == days[ps[t]]
    ensures forall t, u :: 0 <= t < u < |ps| ==> ps[t] < ps[u]
    ensures forall k :: 0 <= k < |days| && Key(days[k]) == m ==> k in ps
  {
    if days == [] then []
    else
      var init := days[..|days| - 1];
      var ps := PositionsIn(init, m);
      assert forall k :: 0 <= k < |init| ==> init[k] == days[k];
      if Key(days[|days| - 1]) == m then ps + [|days| - 1] else ps
  }

  lemma {:induction false} FlattenOfNoDays(ms: seq<Month>)
    ensures Flatten(GroupsFor([], ms)) == []
  {
    if ms != [] {
      FlattenOfNoDays(ms[1..]);
    }
  }

  /** Appending a day adds it once to the flattened groups, when its month is one of them. */
  lemma {:induction false} FlattenAppend(days: seq<Day>, x: Day, ms: seq<Month>)
    requires Distinct(ms)
    ensures multiset(Flatten(GroupsFor(days + [x], ms)))
         == multiset(Flatten(GroupsFor(days, ms))) + if Key(x) in ms then multiset{x} else multiset{}
  {
    if ms != [] {
      FlattenAppend(days, x, ms[1..]);
      assert (days + [x])[..|days|] == days;
      assert Key(x) in ms <==> Key(x) == ms[0] || Key(x) in ms[1..];
      assert Key(x) == ms[0] ==> Key(x) !in ms[1..];
    }
  }

  /** With every day's month listed once in `ms`, the groups hold every day exactly once. */
  lemma {:induction false} FlattenKeepsEveryDay(days: seq<Day>, ms: seq<Month>)
    requires Distinct(ms)
    requires forall k :: 0 <= k < |days| ==> Key(days[k]) in ms
    ensures multiset(Flatten(GroupsFor(days, ms))) == multiset(days)
  {
    if days == [] {
      FlattenOfNoDays(ms);
    } else {
      var init, x := days[..|days| - 1], days[|days| - 1];
      assert forall k :: 0 <= k < |init| ==> init[k] == days[k];
      FlattenKeepsEveryDay(init, ms);
      FlattenAppend(init, x, ms);
      assert init + [x] == days;
    }
  }

  /**
   * The grouping partitions the weekdays: the groups' months are distinct, every group is
   * non-empty and holds days of its own month only, every day sits in the group of its month
   * and in no other, and together the groups hold each day exactly as often as the input does.
   */
  lemma GroupedIsPartition(days: seq<Day>)
    ensures var gs := Grouped(days);
      && (forall i, j :: 0 <= i < j < |gs| ==> gs[i].month != gs[j].month)
      && (forall i :: 0 <= i < |gs| ==> gs[i].days != [])
      && (forall i, d :: 0 <= i < |gs| && d in gs[i].days ==> Key(d) == gs[i].month)
      && (forall k :: 0 <= k < |days| ==> exists i :: 0 <= i < |gs| && gs[i].month == Key(days[k]))
      && (forall k, i :: 0 <= k < |days| && 0 <= i < |gs| ==> (days[k] in gs[i].days <==> gs[i].month == Key(days[k])))
      && multiset(Flatten(gs)) == multiset(days)
  {
    var ms := MonthsInOrder(days);
    var gs := Grouped(days);
    MonthsListedOnce(days);
    forall i | 0 <= i < |gs|
      ensures gs[i].days != []
      ensures forall d :: d in gs[i].days ==> Key(d) == gs[i].month
    {
      ListedExactlyWhenPresent(days, ms[i]);
      BucketHoldsOnlyItsMonth(days, ms[i]);
    }
    forall k | 0 <= k < |days|
      ensures exists i :: 0 <= i < |gs| && gs[i].month == Key(days[k])
      ensures forall i :: 0 <= i < |gs| ==> (days[k] in gs[i].days <==> gs[i].month == Key(days[k]))
    {
      var m := Key(days[k]);
      ListedExactlyWhenPresent(days, m);
      var i :| 0 <= i < |ms| && ms[i] == m;
      assert gs[i].month == m;
      var ps := PositionsIn(days, m);
      var t :| 0 <= t < |ps| && ps[t] == k;
      assert days[k] in gs[i].days;
    }
    forall k | 0 <= k < |days| ensures Key(days[k]) in ms {
      ListedExactlyWhenPresent(days, Key(days[k]));
    }
    FlattenKeepsEveryDay(days, ms);
  }

  /**
   * The groups come in the order of each month's first appearance: every day of a later
   * group is preceded in the input by some day of each earlier group.
   */
  lemma {:induction false} GroupsInFirstAppearanceOrder(days: seq<Day>)
    ensures var ms := MonthsInOrder(days);
      forall i, j, p :: 0 <= i < j < |ms| && 0 <= p < |days| && Key(days[p]) == ms[j] ==>
        exists q :: 0 <= q < p && Key(days[q]) == ms[i]
  {
    if days != [] {
      var init, x := days[..|days| - 1], days[|days| - 1];
      assert forall k :: 0 <= k < |init| ==> init[k] == days[k];
      GroupsInFirstAppearanceOrder(init);
      var ms0, ms := MonthsInOrder(init), MonthsInOrder(days);
      forall i, j, p | 0 <= i < j < |ms| && 0 <= p < |days| && Key(days[p]) == ms[j]
        ensures exists q :: 0 <= q < p && Key(days[q]) == ms[i]
      {
        ListedExactlyWhenPresent(init, ms[i]);
        var k :| 0 <= k < |init| && Key(init[k]) == ms[i];
        if p < |init| {
          if j == |ms0| {
            ListedExactlyWhenPresent(init, Key(x));
            assert false;
          }
          assert Key(init[p]) == ms0[j];
        } else {
          assert Key(days[k]) == ms[i];
        }
      }
    }
  }

  /** The `reduce` into a dictionary followed by `Object.entries`. */
  method GroupByMonth(weekdays: seq<Day>) returns (groups: seq<Group>)
    ensures groups == Grouped(weekdays)
  {
    var acc: map<Month, seq<Day>> := map[];
    var order: seq<Month> := [];  // the insertion order of acc's keys, which Object.entries follows
    var i := 0;
    while i < |weekdays|
      invariant 0 <= i <= |weekdays|
      invariant order == MonthsInOrder(weekdays[..i])
      invariant forall m :: m in acc <==> m in order
      invariant forall m :: m in acc ==> acc[m] == DaysIn(weekdays[..i], m)
    {
      var item := weekdays[i];
      var month := Key(item);
      assert weekdays[..i + 1][..i] == weekdays[..i];
      assert forall m :: (DaysIn(weekdays[..i + 1], m)
                         == if month == m then DaysIn(weekdays[..i], m) + [item] else DaysIn(weekdays[..i], m));
      ListedExactlyWhenPresent(weekdays[..i], month);
      if month !in acc {
        acc := acc[month := []];
        order := order + [month];
      }
      acc := acc[month := acc[month] + [item]];
      i := i + 1;
    }
    assert weekdays[..i] == weekdays;
    groups := [];
    var j := 0;
    while j < |order|
      invariant 0 <= j <= |order|
      invariant |groups| == j
      invariant forall k :: 0 <= k < j ==> groups[k] == Group(order[k], DaysIn(weekdays, order[k]))
    {
      groups := groups + [Group(order[j], acc[order[j]])];
      j := j + 1;
    }
  }
}
