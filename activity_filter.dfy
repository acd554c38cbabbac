/**
 * The home page's `filteredActivities`: keep, in order, the activities whose
 * lower-cased name contains the lower-cased search text and whose category
 * is the selected one, where "all" or no selection (the empty string) lets
 * every category through.  Lower-casing is modelled on ASCII letters.
 */
module ActivityFilter {
  import opened Schema

  function LowerChar(c: char): char {
    if 'A' <= c <= 'Z' then (c as int + 32) as char else c
  }

  /** `s.toLowerCase()` on ASCII. */
  function Lower(s: string): (r: string)
    ensures |r| == |s|
    ensures forall i :: 0 <= i < |s| ==> r[i] == LowerChar(s[i])
  {
    if s == [] then [] else [LowerChar(s[0])] + Lower(s[1..])
  }

  /** Lower-casing twice is lower-casing once. */
  lemma LowerIdempotent(s: string)
    ensures Lower(Lower(s)) == Lower(s)
  {
  }

  /** `sub` stands in `s` at position `i`. */
  predicate OccursAt(s: string, sub: string, i: int)
    requires 0 <= i <= |s| - |sub|
  {
    s[i..i + |sub|] == sub
  }

  /** `s.includes(sub)`: `sub` occurs somewhere in `s`; the empty text occurs everywhere. */
  function Includes(s: string, sub: string): (b: bool)
    ensures b <==> exists i :: 0 <= i <= |s| - |sub| && OccursAt(s, sub, i)
    decreases |s|
  {
    if |sub| > |s| then false
    else if s[..|sub|] == sub then
      assert OccursAt(s, sub, 0);
      true
    else
      var b := Includes(s[1..], sub);
      assert b ==> exists i :: 0 <= i <= |s| - |sub| && OccursAt(s, sub, i) by {
        if b {
          var i :| 0 <= i <= |s[1..]| - |sub| && OccursAt(s[1..], sub, i);
          assert s[1..][i..i + |sub|] == s[i + 1..i + 1 + |sub|];
          assert OccursAt(s, sub, i + 1);
        }
      }
      assert (exists i :: 0 <= i <= |s| - |sub| && OccursAt(s, sub, i)) ==> b by {
        if exists i :: 0 <= i <= |s| - |sub| && OccursAt(s, sub, i) {
          var i :| 0 <= i <= |s| - |sub| && OccursAt(s, sub, i);
          assert i != 0;
          assert s[1..][i - 1..i - 1 + |sub|] == s[i..i + |sub|];
          assert OccursAt(s[1..], sub, i - 1);
        }
      }
      b
  }

  /** `activity.name.toLowerCase().includes(search.toLowerCase())` */
  predicate MatchesSearch(a: Activity, search: string) {
    Includes(Lower(a.name), Lower(search))
  }

  /** `category === "all" || !category || activity.category === category` */
  predicate MatchesCategory(a: Activity, category: string) {
    category == "all" || category == "" || a.category == category
  }

  predicate Kept(a: Activity, search: string, category: string) {
    MatchesSearch(a, search) && MatchesCategory(a, category)
  }

  /**
   * `Array.prototype.filter`: the elements of `xs` that `keep` accepts, in
   * their order in `xs`.
   */
  function Select<T>(xs: seq<T>, keep: T -> bool): (r: seq<T>)
    ensures |r| <= |xs|
  {
    if xs == [] then []
    else (if keep(xs[0]) then [xs[0]] else []) + Select(xs[1..], keep)
  }

  /** An element is selected exactly when it is in the input and accepted. */
  lemma {:induction false} SelectMembership<T>(xs: seq<T>, keep: T -> bool, a: T)
    ensures a in Select(xs, keep) <==> a in xs && keep(a)
  {
    if xs != [] {
      SelectMembership(xs[1..], keep, a);
      assert xs == [xs[0]] + xs[1..];
    }
  }

  /** Selection distributes over concatenation: relative order is kept. */
  lemma {:induction false} SelectConcat<T>(xs: seq<T>, ys: seq<T>, keep: T -> bool)
    ensures Select(xs + ys, keep) == Select(xs, keep) + Select(ys, keep)
  {
    if xs != [] {
      assert (xs + ys)[0] == xs[0] && (xs + ys)[1..] == xs[1..] + ys;
      SelectConcat(xs[1..], ys, keep);
    } else {
      assert xs + ys == ys;
    }
  }

  /**
   * `r` is the subsequence of `xs` at the strictly increasing positions
   * `idx`, and those are exactly the positions whose element is accepted.
   */
  ghost predicate SelectsAt<T>(r: seq<T>, xs: seq<T>, idx: seq<int>, keep: T -> bool) {
    && |idx| == |r|
    && (forall k :: 0 <= k < |idx| ==> 0 <= idx[k] < |xs| && xs[idx[k]] == r[k])
    && (forall k, l :: 0 <= k < l < |idx| ==> idx[k] < idx[l])
    && (forall i :: 0 <= i < |xs| ==> (keep(xs[i]) <==> i in idx))
  }

  /** Positions in `xs[1..]` moved to positions in `xs`. */
  function Shift(idx: seq<int>): (r: seq<int>)
    ensures |r| == |idx| && forall k :: 0 <= k < |idx| ==> r[k] == idx[k] + 1
  {
    seq(|idx|, k requires 0 <= k < |idx| => idx[k] + 1)
  }

  /** Positions that pick `tail` out of `xs[1..]`, moved up by one, pick it out of `xs`. */
  lemma ShiftPicks<T>(xs: seq<T>, tail: seq<T>, rest: seq<int>)
    requires xs != [] && |rest| == |tail|
    requires forall k :: 0 <= k < |rest| ==> 0 <= rest[k] < |xs[1..]| && xs[1..][rest[k]] == tail[k]
    ensures forall k :: 0 <= k < |rest| ==> 1 <= Shift(rest)[k] < |xs| && xs[Shift(rest)[k]] == tail[k]
  {
    forall k | 0 <= k < |rest| ensures 1 <= Shift(rest)[k] < |xs| && xs[Shift(rest)[k]] == tail[k] {
      assert xs[Shift(rest)[k]] == xs[1..][rest[k]];
    }
  }

  /** The accepted positions of `xs[1..]`, moved up by one, are the accepted positions of `xs` after 0. */
  lemma ShiftAccepted<T>(xs: seq<T>, keep: T -> bool, rest: seq<int>)
    requires xs != []
    requires forall i :: 0 <= i < |xs[1..]| ==> (keep(xs[1..][i]) <==> i in rest)
    ensures forall i :: 1 <= i < |xs| ==> (keep(xs[i]) <==> i in Shift(rest))
  {
    var shifted := Shift(rest);
    forall i | 1 <= i < |xs| ensures keep(xs[i]) <==> i in shifted {
      assert xs[i] == xs[1..][i - 1];
      if i - 1 in rest {
        var k :| 0 <= k < |rest| && rest[k] == i - 1;
        assert shifted[k] == i;
      }
      if i in shifted {
        var k :| 0 <= k < |shifted| && shifted[k] == i;
        assert rest[k] == i - 1;
      }
    }
  }

  /** The positions of a selection from `xs[1..]`, moved up by one, select the same from `xs`. */
  lemma ShiftedPositions<T>(xs: seq<T>, keep: T -> bool, rest: seq<int>)
    requires xs != []
    requires SelectsAt(Select(xs[1..], keep), xs[1..], rest, keep)
    ensures forall k :: 0 <= k < |rest| ==> 1 <= Shift(rest)[k] < |xs| && xs[Shift(rest)[k]] == Select(xs[1..], keep)[k]
    ensures forall k, l :: 0 <= k < l < |rest| ==> Shift(rest)[k] < Shift(rest)[l]
    ensures forall i :: 1 <= i < |xs| ==> (keep(xs[i]) <==> i in Shift(rest))
  {
    ShiftPicks(xs, Select(xs[1..], keep), rest);
    ShiftAccepted(xs, keep, rest);
  }

  /** Putting position 0 in front of positions of `xs[1..]` that pick out `tail` picks out `[xs[0]] + tail`. */
  lemma ConsPicks<T>(xs: seq<T>, tail: seq<T>, shifted: seq<int>)
    requires xs != [] && |shifted| == |tail|
    requires forall k :: 0 <= k < |shifted| ==> 1 <= shifted[k] < |xs| && xs[shifted[k]] == tail[k]
    ensures forall k :: 0 <= k < |shifted| + 1 ==>
      0 <= ([0] + shifted)[k] < |xs| && xs[([0] + shifted)[k]] == ([xs[0]] + tail)[k]
  {
    var idx, r := [0] + shifted, [xs[0]] + tail;
    forall k | 0 <= k < |idx| ensures 0 <= idx[k] < |xs| && xs[idx[k]] == r[k] {
      if k > 0 {
        assert idx[k] == shifted[k - 1] && r[k] == tail[k - 1];
      }
    }
  }

  /** Position 0 in front of increasing positions that are all at least 1 keeps them increasing. */
  lemma ConsIncreasing(shifted: seq<int>)
    requires forall k :: 0 <= k < |shifted| ==> 1 <= shifted[k]
    requires forall k, l :: 0 <= k < l < |shifted| ==> shifted[k] < shifted[l]
    ensures forall k, l :: 0 <= k < l < |shifted| + 1 ==> ([0] + shifted)[k] < ([0] + shifted)[l]
  {
    var idx := [0] + shifted;
    forall k, l | 0 <= k < l < |idx| ensures idx[k] < idx[l] {
      assert idx[l] == shifted[l - 1];
      if k > 0 {
        assert idx[k] == shifted[k - 1];
      }
    }
  }

  /** Adding position 0, whose element is accepted, to the accepted positions after it gives all of them. */
  lemma ConsAccepted<T>(xs: seq<T>, keep: T -> bool, shifted: seq<int>)
    requires xs != [] && keep(xs[0])
    requires forall i :: 1 <= i < |xs| ==> (keep(xs[i]) <==> i in shifted)
    ensures forall i :: 0 <= i < |xs| ==> (keep(xs[i]) <==> i in [0] + shifted)
  {
    forall i | 0 <= i < |xs| ensures keep(xs[i]) <==> i in [0] + shifted {
      if i > 0 {
        assert i in [0] + shifted <==> i in shifted;
      }
    }
  }

  /** When the first element is accepted, its position goes in front of the shifted ones. */
  lemma PositionsHeadKept<T>(xs: seq<T>, keep: T -> bool, rest: seq<int>)
    requires xs != [] && keep(xs[0])
    requires SelectsAt(Select(xs[1..], keep), xs[1..], rest, keep)
    ensures SelectsAt(Select(xs, keep), xs, [0] + Shift(rest), keep)
  {
    ShiftedPositions(xs, keep, rest);
    var tail := Select(xs[1..], keep);
    assert Select(xs, keep) == [xs[0]] + tail;
    ConsPicks(xs, tail, Shift(rest));
    ConsIncreasing(Shift(rest));
    ConsAccepted(xs, keep, Shift(rest));
  }

  /** Positions all at least 1 that accept exactly after 0 accept exactly everywhere when `xs[0]` is refused. */
  lemma DroppedAccepted<T>(xs: seq<T>, keep: T -> bool, shifted: seq<int>)
    requires xs != [] && !keep(xs[0])
    requires forall k :: 0 <= k < |shifted| ==> 1 <= shifted[k]
    requires forall i :: 1 <= i < |xs| ==> (keep(xs[i]) <==> i in shifted)
    ensures forall i :: 0 <= i < |xs| ==> (keep(xs[i]) <==> i in shifted)
  {
    assert 0 !in shifted;
  }

  /** When the first element is refused, the shifted positions are all there is. */
  lemma PositionsHeadDropped<T>(xs: seq<T>, keep: T -> bool, rest: seq<int>)
    requires xs != [] && !keep(xs[0])
    requires SelectsAt(Select(xs[1..], keep), xs[1..], rest, keep)
    ensures SelectsAt(Select(xs, keep), xs, Shift(rest), keep)
  {
    ShiftedPositions(xs, keep, rest);
    DroppedAccepted(xs, keep, Shift(rest));
    assert Select(xs, keep) == Select(xs[1..], keep);
  }

  /** The selection is the order-preserving subsequence of exactly the accepted positions. */
  lemma {:induction false} SelectPositions<T>(xs: seq<T>, keep: T -> bool) returns (idx: seq<int>)
    ensures SelectsAt(Select(xs, keep), xs, idx, keep)
  {
    if xs == [] {
      return [];
    }
    var rest := SelectPositions(xs[1..], keep);
    if keep(xs[0]) {
      PositionsHeadKept(xs, keep, rest);
      idx := [0] + Shift(rest);
    } else {
      PositionsHeadDropped(xs, keep, rest);
      idx := Shift(rest);
    }
  }

  /** Selecting again from a selection with the same test changes nothing. */
  lemma {:induction false} SelectIdempotent<T>(xs: seq<T>, keep: T -> bool)
    ensures Select(Select(xs, keep), keep) == Select(xs, keep)
  {
    if xs != [] {
      SelectIdempotent(xs[1..], keep);
      var head := if keep(xs[0]) then [xs[0]] else [];
      SelectConcat(head, Select(xs[1..], keep), keep);
      assert Select(head, keep) == head by {
        if head != [] {
          assert head[1..] == [];
        }
      }
    }
  }

  /** The callback passed to `filter`. */
  function KeepFor(search: string, category: string): Activity -> bool {
    a => Kept(a, search, category)
  }

  /** `filteredActivities` */
  function Filter(xs: seq<Activity>, search: string, category: string): (r: seq<Activity>)
    ensures |r| <= |xs|
    ensures forall i :: 0 <= i < |r| ==> r[i] in xs && Kept(r[i], search, category)
  {
    var keep := KeepFor(search, category);
    var r := Select(xs, keep);
    assert forall i :: 0 <= i < |r| ==> r[i] in xs && Kept(r[i], search, category) by {
      forall i | 0 <= i < |r| ensures r[i] in xs && Kept(r[i], search, category) {
        SelectMembership(xs, keep, r[i]);
      }
    }
    r
  }

  /**
   * The filtered list is the order-preserving subsequence of exactly the
   * activities that pass both tests.
   */
  lemma FilterSelectsKept(xs: seq<Activity>, search: string, category: string)
    ensures forall a :: a in Filter(xs, search, category) <==> a in xs && Kept(a, search, category)
    ensures exists idx :: SelectsAt(Filter(xs, search, category), xs, idx, KeepFor(search, category))
  {
    var keep := KeepFor(search, category);
    forall a ensures a in Select(xs, keep) <==> a in xs && keep(a) {
      SelectMembership(xs, keep, a);
    }
    var idx := SelectPositions(xs, keep);
    assert SelectsAt(Filter(xs, search, category), xs, idx, keep);
  }

  /** Filtering the filtered list again with the same search and category changes nothing. */
  lemma FilterIdempotent(xs: seq<Activity>, search: string, category: string)
    ensures Filter(Filter(xs, search, category), search, category) == Filter(xs, search, category)
  {
    SelectIdempotent(xs, KeepFor(search, category));
  }

  /** With no search text and no category restriction, every activity is kept, in order. */
  lemma {:induction false} FilterUnrestricted(xs: seq<Activity>, category: string)
    requires category == "all" || category == ""
    ensures Filter(xs, "", category) == xs
  {
    if xs != [] {
      assert OccursAt(Lower(xs[0].name), Lower(""), 0);
      FilterUnrestricted(xs[1..], category);
    }
  }
}
