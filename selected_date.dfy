/** The set of dates the user has picked in the calendar: toggling one
    date, clearing all, and the read-only views of the set. */
module SelectedDates {

  import opened Optional

  // ---------------------------------------------------------------------
  // The default order of `Array.prototype.sort` on strings

  /** `a` sorts before `b`: the first differing character decides, and a
      proper prefix sorts first. */
  predicate StringLess(a: string, b: string)
    decreases |a|
  {
    if a == [] then b != []
    else if b == [] then false
    else if a[0] != b[0] then a[0] < b[0]
    else StringLess(a[1..], b[1..])
  }

  lemma {:induction false} StringLessIrreflexive(a: string)
    ensures !StringLess(a, a)
    decreases |a|
  {
    if a != [] {
      StringLessIrreflexive(a[1..]);
    }
  }

  lemma {:induction false} StringLessTransitive(a: string, b: string, c: string)
    requires StringLess(a, b) && StringLess(b, c)
    ensures StringLess(a, c)
    decreases |a|
  {
    if a != [] && a[0] == b[0] && b[0] == c[0] {
      StringLessTransitive(a[1..], b[1..], c[1..]);
    }
  }

  /** Of two different strings, one sorts before the other. */
  lemma {:induction false} StringLessTotal(a: string, b: string)
    requires a != b
    ensures StringLess(a, b) || StringLess(b, a)
    decreases |a|
  {
    if a != [] && b != [] && a[0] == b[0] {
      assert a == [a[0]] + a[1..] && b == [b[0]] + b[1..];
      StringLessTotal(a[1..], b[1..]);
    }
  }

  /** The string of a non-empty set that sorts first. */
  ghost function FirstOf(s: set<string>): (m: string)
    requires s != {}
    ensures m in s && forall x :: x in s && x != m ==> StringLess(m, x)
  {
    var x :| x in s;
    var others := s - {x};
    assert forall z :: z in s ==> z == x || z in others;
    if others == {} then x
    else
      var rest := FirstOf(others);
      StringLessTotal(x, rest);
      assert forall z :: z in others && z != rest ==> StringLess(rest, z);
      if StringLess(x, rest) then
        assert forall z :: z in others && z != rest ==> StringLess(x, z) by {
          forall z | z in others && z != rest ensures StringLess(x, z) {
            StringLessTransitive(x, rest, z);
          }
        }
        x
      else
        rest
  }

  /** The strings of a set in sort order. */
  ghost function Sorted(s: set<string>): seq<string>
    decreases |s|
  {
    if s == {} then []
    else
      var m := FirstOf(s);
      [m] + Sorted(s - {m})
  }

  /** `Sorted` lists each string of the set once and nothing else. */
  lemma {:induction false} SortedMembers(s: set<string>)
    ensures |Sorted(s)| == |s|
    ensures forall x :: x in Sorted(s) <==> x in s
    decreases |s|
  {
    if s != {} {
      var m := FirstOf(s);
      SortedMembers(s - {m});
      assert Sorted(s) == [m] + Sorted(s - {m});
    }
  }

  /** `Sorted` lists the strings in strictly increasing order. */
  lemma {:induction false} SortedIncreasing(s: set<string>)
    ensures forall i, j :: 0 <= i < j < |Sorted(s)| ==> StringLess(Sorted(s)[i], Sorted(s)[j])
    decreases |s|
  {
    if s != {} {
      var m := FirstOf(s);
      var rest := Sorted(s - {m});
      SortedIncreasing(s - {m});
      SortedMembers(s - {m});
      forall x | x in rest ensures StringLess(m, x) {
        assert x in s && x != m;
      }
      assert Sorted(s) == [m] + rest;
      IncreasingCons(m, rest, Sorted(s));
    }
  }

  lemma IncreasingCons(m: string, rest: seq<string>, list: seq<string>)
    requires forall i, j :: 0 <= i < j < |rest| ==> StringLess(rest[i], rest[j])
    requires forall x :: x in rest ==> StringLess(m, x)
    requires list == [m] + rest
    ensures forall i, j :: 0 <= i < j < |list| ==> StringLess(list[i], list[j])
  {
    forall i, j | 0 <= i < j < |list| ensures StringLess(list[i], list[j]) {
      assert list[j] == rest[j - 1] && rest[j - 1] in rest;
      if i > 0 {
        assert list[i] == rest[i - 1];
      }
    }
  }

  // ---------------------------------------------------------------------
  // Toggling

  /** `!date`: `null` and the empty string are ignored. */
  predicate Blank(date: Option<string>) {
    date.None? || date.value == ""
  }

  /** The set after `toggleDate(date)`: a blank date changes nothing,
      otherwise the date is removed if present and added if absent. */
  function Toggle(dates: set<string>, date: Option<string>): set<string> {
    if Blank(date) then dates
    else if date.value in dates then dates - {date.value}
    else dates + {date.value}
  }

  /** Toggling flips the membership of the date and of no other string. */
  lemma ToggleFlips(dates: set<string>, date: Option<string>)
    ensures Blank(date) ==> Toggle(dates, date) == dates
    ensures !Blank(date) ==> (date.value in Toggle(dates, date) <==> date.value !in dates)
    ensures forall x :: (date.None? || x != date.value) ==> (x in Toggle(dates, date) <==> x in dates)
  {
  }

  /** Toggling the same date twice restores the set. */
  lemma ToggleTwice(dates: set<string>, date: Option<string>)
    ensures Toggle(Toggle(dates, date), date) == dates
  {
  }

  /** Toggling a date changes the count by one, up when it was absent and
      down when it was present. */
  lemma ToggleCount(dates: set<string>, date: Option<string>)
    requires !Blank(date)
    ensures date.value in dates ==> |Toggle(dates, date)| == |dates| - 1
    ensures date.value !in dates ==> |Toggle(dates, date)| == |dates| + 1
  {
  }

  // ---------------------------------------------------------------------
  // The module state

  /** The module-level `selectedDates` shared by every caller of
      `useSelectedDate`, and the operations on it. */
  class Selection {
    var selectedDates: set<string>

    /** The empty string is never selected: `toggleDate` ignores it. */
    predicate Valid()
      reads this
    {
      "" !in selectedDates
    }

    constructor ()
      ensures selectedDates == {} && Valid()
    {
      selectedDates := {};
    }

    /** `toggleDate(date)`. */
    method ToggleDate(date: Option<string>)
      requires Valid()
      modifies this
      ensures Valid()
      ensures selectedDates == Toggle(old(selectedDates), date)
    {
      if date.None? || date.value == "" {
        return;
      }
      var newSet := selectedDates;
      if date.value in newSet {
        newSet := newSet - {date.value};
      } else {
        newSet := newSet + {date.value};
      }
      selectedDates := newSet;
    }

    /** `clearSelection()`. */
    method ClearSelection()
      modifies this
      ensures selectedDates == {} && SelectedCount() == 0 && Valid()
    {
      selectedDates := {};
    }

    /** `isSelected(date)`: false for a blank date, membership otherwise. */
    predicate IsSelected(date: Option<string>)
      reads this
    {
      !Blank(date) && date.value in selectedDates
    }

    /** `isSelected(null)` is false, and on a valid state `isSelected(d)`
        is exactly membership of `d`, the empty string included. */
    lemma IsSelectedSpec()
      requires Valid()
      ensures !IsSelected(None)
      ensures forall d :: IsSelected(Some(d)) <==> d in selectedDates
    {
    }

    /** `selectedCount`. */
    function SelectedCount(): nat
      reads this
    {
      |selectedDates|
    }

    /** `selectedList`: the dates in sort order. */
    ghost function SelectedList(): seq<string>
      reads this
    {
      Sorted(selectedDates)
    }

    /** `selectedList` holds every selected date once, nothing else, in
        increasing order; its length is `selectedCount`. */
    lemma SelectedListSpec()
      requires Valid()
      ensures |SelectedList()| == SelectedCount()
      ensures forall d :: d in SelectedList() <==> IsSelected(Some(d))
      ensures forall i, j :: 0 <= i < j < |SelectedList()| ==> StringLess(SelectedList()[i], SelectedList()[j])
    {
      SortedMembers(selectedDates);
      SortedIncreasing(selectedDates);
    }
  }
}
