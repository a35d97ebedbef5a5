/** Sorted sets of the sharded store: a map of scores, and a sorted index that is rebuilt when it is read. */
module SortedSets {
  import opened Lists

  type Scores = map<string, real>

  type Scored = (string, real)

  // ---------- What the operations do to the scores ----------

  function Scoring(scores: Scores, added: seq<Scored>): Scores {
    if added == [] then scores
    else Scoring(scores, added[..|added| - 1])[added[|added| - 1].0 := added[|added| - 1].1]
  }

  predicate Mentions(added: seq<Scored>, m: string) {
    exists i :: 0 <= i < |added| && added[i].0 == m
  }

  /** Position i is the last at which `added` names its member. */
  predicate NamedLast(added: seq<Scored>, i: nat)
    requires i < |added|
  {
    forall j :: i < j < |added| ==> added[j].0 != added[i].0
  }

  /**
   The members are the old ones and those named; a member named has the score it was last named with, and
   every other member the score it had.
   */
  ghost predicate Rescored(before: Scores, added: seq<Scored>, after: Scores) {
    && (forall m :: m in after <==> m in before || Mentions(added, m))
    && (forall i :: 0 <= i < |added| && NamedLast(added, i) ==>
          added[i].0 in after && after[added[i].0] == added[i].1)
    && (forall m :: m in before && !Mentions(added, m) ==> m in after && after[m] == before[m])
  }

  lemma {:induction false} LastNaming(scores: Scores, added: seq<Scored>, i: nat)
    requires i < |added| && NamedLast(added, i)
    ensures added[i].0 in Scoring(scores, added) && Scoring(scores, added)[added[i].0] == added[i].1
  {
    var n := |added| - 1;
    if i < n {
      assert added[n].0 != added[i].0;
      LastNaming(scores, added[..n], i);
    }
  }

  lemma {:induction false} NotNamed(scores: Scores, added: seq<Scored>, m: string)
    requires !Mentions(added, m)
    ensures m in Scoring(scores, added) <==> m in scores
    ensures m in scores ==> Scoring(scores, added)[m] == scores[m]
  {
    if added != [] {
      var n := |added| - 1;
      assert added[n].0 != m;
      NotNamed(scores, added[..n], m);
    }
  }

  lemma {:induction false} Named(scores: Scores, added: seq<Scored>, m: string)
    requires Mentions(added, m)
    ensures m in Scoring(scores, added)
  {
    var n := |added| - 1;
    if added[n].0 != m {
      var i :| 0 <= i < |added| && added[i].0 == m;
      assert added[..n][i].0 == m;
      Named(scores, added[..n], m);
    }
  }

  lemma ScoringRescores(scores: Scores, added: seq<Scored>)
    ensures Rescored(scores, added, Scoring(scores, added))
  {
    var after := Scoring(scores, added);
    forall i | 0 <= i < |added| && NamedLast(added, i) ensures added[i].0 in after && after[added[i].0] == added[i].1 {
      LastNaming(scores, added, i);
    }
    forall m ensures m in after <==> m in scores || Mentions(added, m) {
      if Mentions(added, m) {
        Named(scores, added, m);
      } else {
        NotNamed(scores, added, m);
      }
    }
    forall m | m in scores && !Mentions(added, m) ensures m in after && after[m] == scores[m] {
      NotNamed(scores, added, m);
    }
  }

  predicate Within(score: real, min: real, max: real) {
    min <= score <= max
  }

  function OutOfRange(scores: Scores, min: real, max: real): Scores {
    map m | m in scores && !Within(scores[m], min, max) :: scores[m]
  }

  lemma {:induction false} OutOfRangeIsSmaller(scores: Scores, min: real, max: real)
    ensures |OutOfRange(scores, min, max)| <= |scores|
    decreases |scores|
  {
    if m :| m in scores {
      var rest := scores - {m};
      OutOfRangeIsSmaller(rest, min, max);
      assert OutOfRange(rest, min, max) == OutOfRange(scores, min, max) - {m};
    }
  }

  /** Removing a range leaves the members below min and above max with their scores, and counts the others. */
  lemma OutOfRangeIsOutside(scores: Scores, min: real, max: real)
    ensures var left := OutOfRange(scores, min, max);
            && (forall m :: m in left <==> m in scores && (scores[m] < min || scores[m] > max))
            && (forall m :: m in left ==> left[m] == scores[m])
            && |scores| - |left| == |set m | m in scores && min <= scores[m] <= max|
  {
    var left, inside := OutOfRange(scores, min, max), set m | m in scores && min <= scores[m] <= max;
    assert scores.Keys == left.Keys + inside && left.Keys !! inside;
    assert |scores| == |scores.Keys| && |left| == |left.Keys|;
  }

  /** Every member of the range once, in score order; members with equal scores come in any order. */
  ghost predicate RanksRange(scores: Scores, min: real, max: real, names: seq<string>) {
    && NoDuplicates(names)
    && (forall m :: m in names <==> m in scores && Within(scores[m], min, max))
    && forall i, j :: 0 <= i < j < |names| ==> scores[names[i]] <= scores[names[j]]
  }

  /** Every member once, in score order. */
  ghost predicate Ranks(scores: Scores, names: seq<string>) {
    && NoDuplicates(names)
    && (forall m :: m in names <==> m in scores)
    && forall i, j :: 0 <= i < j < |names| ==> scores[names[i]] <= scores[names[j]]
  }

  /** Where the part between two positions starts; a negative position counts from the end. */
  function WindowStart<T>(s: seq<T>, start: int): nat {
    if start >= 0 then start else if |s| + start >= 0 then |s| + start else 0
  }

  function Window<T>(s: seq<T>, start: int, stop: int): seq<T> {
    var from, to := WindowStart(s, start), if stop < 0 then |s| + stop else stop;
    var last := if to >= |s| then |s| - 1 else to;
    if from > last then [] else s[from..last + 1]
  }

  /**
   Position i is in the window exactly when it lies between the two ends, each counted from the end of the
   sequence when it is negative.
   */
  lemma WindowPositions<T>(s: seq<T>, start: int, stop: int, i: nat)
    requires NoDuplicates(s) && i < |s|
    ensures s[i] in Window(s, start, stop) <==>
            (if start < 0 then |s| + start else start) <= i <= (if stop < 0 then |s| + stop else stop)
  {
    var window, from := Window(s, start, stop), WindowStart(s, start);
    if s[i] in window {
      var k :| 0 <= k < |window| && window[k] == s[i];
      assert s[from + k] == s[i];
    } else {
      assert forall k :: 0 <= k < |window| ==> window[k] == s[from + k] && window[k] in window;
    }
  }

  /** The answer to a range by position: a window of some ranking. */
  ghost predicate RanksWindow(scores: Scores, start: int, stop: int, names: seq<string>) {
    exists ranking: seq<string> :: Ranks(scores, ranking) && names == Window(ranking, start, stop)
  }

  // ---------- When a ranking is determined ----------

  /** No two members of the range share their score. */
  ghost predicate NoTies(scores: Scores, min: real, max: real) {
    forall a, b ::
      (a in scores && Within(scores[a], min, max) && b in scores && Within(scores[b], min, max) && a != b) ==>
        scores[a] != scores[b]
  }

  /** None of the names shares its score with any other member of the set. */
  ghost predicate Untied(scores: Scores, names: seq<string>) {
    forall a, b :: a in names && a in scores && b in scores && a != b ==> scores[a] != scores[b]
  }

  ghost predicate SameMembers(s: seq<string>, t: seq<string>) {
    forall m :: m in s <==> m in t
  }

  /** Members in strictly increasing score order. */
  ghost predicate Increasing(scores: Scores, s: seq<string>) {
    && (forall m :: m in s ==> m in scores)
    && forall i, j :: 0 <= i < j < |s| ==> scores[s[i]] < scores[s[j]]
  }

  lemma {:induction false} SamePosition(scores: Scores, s: seq<string>, t: seq<string>, i: nat)
    requires SameMembers(s, t) && Increasing(scores, s) && Increasing(scores, t) && i < |s|
    ensures i < |t| && s[i] == t[i]
  {
    forall k: nat | k < i ensures k < |t| && s[k] == t[k] {
      SamePosition(scores, s, t, k);
    }
    assert s[i] in t;
    var j :| 0 <= j < |t| && t[j] == s[i];
    assert j >= i && t[i] in s;
    var k :| 0 <= k < |s| && s[k] == t[i];
    assert scores[t[i]] <= scores[t[j]] == scores[s[i]] <= scores[s[k]] == scores[t[i]];
  }

  lemma SameMembersSameRanking(scores: Scores, s: seq<string>, t: seq<string>)
    requires SameMembers(s, t) && Increasing(scores, s) && Increasing(scores, t)
    ensures s == t
  {
    forall i: nat | i < |s| ensures i < |t| && s[i] == t[i] {
      SamePosition(scores, s, t, i);
    }
    if |s| > 0 {
      SamePosition(scores, s, t, |s| - 1);
    }
    if |t| > 0 {
      SamePosition(scores, t, s, |t| - 1);
    }
  }

  lemma StrictlyRanked(scores: Scores, names: seq<string>)
    requires NoDuplicates(names) && forall m :: m in names ==> m in scores
    requires forall a, b :: a in names && b in names && a != b ==> scores[a] != scores[b]
    requires forall i, j :: 0 <= i < j < |names| ==> scores[names[i]] <= scores[names[j]]
    ensures Increasing(scores, names)
  {
  }

  lemma RangeWithoutTies(scores: Scores, min: real, max: real, names: seq<string>, other: seq<string>)
    requires RanksRange(scores, min, max, names) && RanksRange(scores, min, max, other) && NoTies(scores, min, max)
    ensures names == other
  {
    StrictlyRanked(scores, names);
    StrictlyRanked(scores, other);
    SameMembersSameRanking(scores, names, other);
  }

  function Swapped(names: seq<string>, i: nat, j: nat): seq<string>
    requires i < |names| && j < |names|
  {
    names[i := names[j]][j := names[i]]
  }

  lemma SwapKeepsMembers(names: seq<string>, i: nat, j: nat)
    requires i < |names| && j < |names| && NoDuplicates(names)
    ensures NoDuplicates(Swapped(names, i, j)) && forall m :: m in Swapped(names, i, j) <==> m in names
  {
    var other := Swapped(names, i, j);
    forall m | m in names ensures m in other {
      var k :| 0 <= k < |names| && names[k] == m;
      assert other[if k == i then j else if k == j then i else k] == m;
    }
  }

  lemma TiesCanBeSwapped(scores: Scores, min: real, max: real, names: seq<string>, i: nat, j: nat)
    requires RanksRange(scores, min, max, names) && i < j < |names| && scores[names[i]] == scores[names[j]]
    ensures RanksRange(scores, min, max, Swapped(names, i, j)) && Swapped(names, i, j) != names
  {
    var other := Swapped(names, i, j);
    SwapKeepsMembers(names, i, j);
    assert other[i] == names[j] != names[i];
    forall k | 0 <= k < |names| ensures scores[other[k]] == scores[names[k]] {
    }
  }

  /** A range by score has one possible answer exactly when no two members of the range share their score. */
  lemma RangeIsDetermined(scores: Scores, min: real, max: real, names: seq<string>)
    requires RanksRange(scores, min, max, names)
    ensures (forall other :: RanksRange(scores, min, max, other) ==> other == names) <==> NoTies(scores, min, max)
  {
    if NoTies(scores, min, max) {
      forall other | RanksRange(scores, min, max, other) ensures other == names {
        RangeWithoutTies(scores, min, max, names, other);
      }
    } else {
      var a, b :| a in scores && b in scores && a != b && Within(scores[a], min, max) && Within(scores[b], min, max)
                  && scores[a] == scores[b];
      assert a in names && b in names;
      var i: nat, j: nat :| i < |names| && names[i] == a && j < |names| && names[j] == b;
      TiesCanBeSwapped(scores, min, max, names, if i < j then i else j, if i < j then j else i);
    }
  }

  lemma {:induction false} DistinctCount(names: seq<string>)
    requires NoDuplicates(names)
    ensures |set m | m in names| == |names|
  {
    if |names| > 0 {
      var n := |names| - 1;
      DistinctCount(names[..n]);
      assert (set m | m in names) == (set m | m in names[..n]) + {names[n]};
      assert names[n] !in names[..n];
    }
  }

  /** The members ranked before an untied one are those with a lower score. */
  lemma RankedBefore(scores: Scores, s: seq<string>, i: nat)
    requires Ranks(scores, s) && i < |s| && Untied(scores, [s[i]])
    ensures i == |set m | m in scores && scores[m] < scores[s[i]]|
  {
    var lower := set m | m in scores && scores[m] < scores[s[i]];
    forall m | m in s[..i] ensures m in lower {
      var k :| 0 <= k < i && s[k] == m;
      assert s[i] in [s[i]];
    }
    forall m | m in lower ensures m in s[..i] {
      var k :| 0 <= k < |s| && s[k] == m;
      assert k < i;
    }
    assert lower == set m | m in s[..i];
    DistinctCount(s[..i]);
  }

  /** An untied member has the same position in every ranking. */
  lemma UntiedPosition(scores: Scores, s: seq<string>, t: seq<string>, i: nat)
    requires Ranks(scores, s) && Ranks(scores, t) && i < |s| && Untied(scores, [s[i]])
    ensures i < |t| && t[i] == s[i]
  {
    assert s[i] in t;
    var j :| 0 <= j < |t| && t[j] == s[i];
    RankedBefore(scores, s, i);
    RankedBefore(scores, t, j);
  }

  lemma SameLength(scores: Scores, s: seq<string>, t: seq<string>)
    requires Ranks(scores, s) && Ranks(scores, t)
    ensures |s| == |t|
  {
    DistinctCount(s);
    DistinctCount(t);
    assert (set m | m in s) == (set m | m in t);
  }

  lemma WindowAt<T>(s: seq<T>, start: int, stop: int, k: nat)
    requires k < |Window(s, start, stop)|
    ensures WindowStart(s, start) + k < |s| && Window(s, start, stop)[k] == s[WindowStart(s, start) + k]
  {
  }

  lemma WindowOfSameLength<T>(s: seq<T>, t: seq<T>, start: int, stop: int)
    requires |s| == |t|
    ensures |Window(s, start, stop)| == |Window(t, start, stop)| && WindowStart(s, start) == WindowStart(t, start)
  {
  }

  lemma UntiedWindow(scores: Scores, start: int, stop: int, s: seq<string>, t: seq<string>)
    requires Ranks(scores, s) && Ranks(scores, t) && Untied(scores, Window(s, start, stop))
    ensures Window(t, start, stop) == Window(s, start, stop)
  {
    SameLength(scores, s, t);
    WindowOfSameLength(s, t, start, stop);
    var v, w := Window(t, start, stop), Window(s, start, stop);
    forall k | 0 <= k < |w| ensures v[k] == w[k] {
      WindowAt(s, start, stop, k);
      WindowAt(t, start, stop, k);
      OneUntied(scores, w, k);
      UntiedPosition(scores, s, t, WindowStart(s, start) + k);
    }
  }

  lemma OneUntied(scores: Scores, names: seq<string>, k: nat)
    requires k < |names| && Untied(scores, names)
    ensures Untied(scores, [names[k]])
  {
    assert names[k] in names;
  }

  lemma SwapKeepsRanking(scores: Scores, s: seq<string>, i: nat, j: nat)
    requires Ranks(scores, s) && i < |s| && j < |s| && scores[s[i]] == scores[s[j]]
    ensures Ranks(scores, Swapped(s, i, j))
  {
    var other := Swapped(s, i, j);
    SwapKeepsMembers(s, i, j);
    forall k | 0 <= k < |s| ensures scores[other[k]] == scores[s[k]] {
    }
  }

  lemma SwapShows(scores: Scores, start: int, stop: int, s: seq<string>, k: nat, j: nat)
    requires Ranks(scores, s) && k < |Window(s, start, stop)| && j < |s|
    requires var a := Window(s, start, stop)[k]; a in scores && a != s[j] && scores[a] == scores[s[j]]
    ensures WindowStart(s, start) + k < |s|
    ensures var t := Swapped(s, WindowStart(s, start) + k, j);
            Ranks(scores, t) && Window(t, start, stop) != Window(s, start, stop)
  {
    WindowAt(s, start, stop, k);
    var i := WindowStart(s, start) + k;
    var t := Swapped(s, i, j);
    SwapKeepsRanking(scores, s, i, j);
    WindowOfSameLength(s, t, start, stop);
    WindowAt(t, start, stop, k);
    assert t[i] == s[j];
  }

  lemma TiedWindow(scores: Scores, start: int, stop: int, s: seq<string>) returns (t: seq<string>)
    requires Ranks(scores, s) && !Untied(scores, Window(s, start, stop))
    ensures Ranks(scores, t) && Window(t, start, stop) != Window(s, start, stop)
  {
    var w := Window(s, start, stop);
    var a, b :| a in w && a in scores && b in scores && a != b && scores[a] == scores[b];
    var k: nat :| k < |w| && w[k] == a;
    assert b in s;
    var j: nat :| j < |s| && s[j] == b;
    SwapShows(scores, start, stop, s, k, j);
    t := Swapped(s, WindowStart(s, start) + k, j);
  }

  /**
   A range by position has one possible answer exactly when no member of the window shares its score with
   any other member of the set.
   */
  lemma WindowIsDetermined(scores: Scores, start: int, stop: int, ranking: seq<string>)
    requires Ranks(scores, ranking)
    ensures (forall other :: RanksWindow(scores, start, stop, other) ==> other == Window(ranking, start, stop))
            <==> Untied(scores, Window(ranking, start, stop))
  {
    if Untied(scores, Window(ranking, start, stop)) {
      forall other | RanksWindow(scores, start, stop, other) ensures other == Window(ranking, start, stop) {
        var t: seq<string> :| Ranks(scores, t) && other == Window(t, start, stop);
        UntiedWindow(scores, start, stop, ranking, t);
      }
    } else {
      var t := TiedWindow(scores, start, stop, ranking);
      assert RanksWindow(scores, start, stop, Window(t, start, stop));
    }
  }

  /** One member in the window, and still two possible answers: the other one is tied with it. */
  lemma TieOutsideTheWindow()
    ensures RanksWindow(map["a" := 1.0, "b" := 1.0], 0, 0, ["a"])
    ensures RanksWindow(map["a" := 1.0, "b" := 1.0], 0, 0, ["b"])
  {
    var scores: Scores := map["a" := 1.0, "b" := 1.0];
    assert Ranks(scores, ["a", "b"]) && Window(["a", "b"], 0, 0) == ["a"];
    assert Ranks(scores, ["b", "a"]) && Window(["b", "a"], 0, 0) == ["b"];
  }

  // ---------- The sorted index ----------

  ghost predicate Ordered(s: seq<Scored>) {
    forall i, j :: 0 <= i < j < |s| ==> s[i].1 <= s[j].1
  }

  /** A permutation of the score map in non-decreasing score order. */
  ghost predicate Indexes(sorted: seq<Scored>, scores: Scores) {
    multiset(sorted) == multiset(scores.Items) && Ordered(sorted)
  }

  lemma IndexMembers(sorted: seq<Scored>, scores: Scores, i: nat)
    requires multiset(sorted) == multiset(scores.Items) && i < |sorted|
    ensures sorted[i].0 in scores && scores[sorted[i].0] == sorted[i].1
  {
    assert sorted[i] in multiset(sorted);
    assert sorted[i] in scores.Items;
  }

  lemma MemberIsIndexed(sorted: seq<Scored>, scores: Scores, m: string) returns (i: nat)
    requires multiset(sorted) == multiset(scores.Items) && m in scores
    ensures i < |sorted| && sorted[i] == (m, scores[m])
  {
    assert (m, scores[m]) in scores.Items;
    assert (m, scores[m]) in multiset(sorted);
    i :| 0 <= i < |sorted| && sorted[i] == (m, scores[m]);
  }

  lemma SetListsOnce<T>(s: seq<T>, items: set<T>, i: nat, j: nat)
    requires multiset(s) == multiset(items) && i < j < |s|
    ensures s[i] != s[j]
  {
    assert s == s[..j] + s[j..];
    assert s[i] in s[..j] && s[j] in s[j..];
    var listed, held := multiset(s), multiset(items);
    assert listed[s[i]] == held[s[i]] <= 1;
  }

  lemma IndexedOnce(sorted: seq<Scored>, scores: Scores, i: nat, j: nat)
    requires multiset(sorted) == multiset(scores.Items) && i < j < |sorted|
    ensures sorted[i].0 != sorted[j].0
  {
    IndexMembers(sorted, scores, i);
    IndexMembers(sorted, scores, j);
    assert sorted[i].0 == sorted[j].0 ==> sorted[i] == sorted[j];
    SetListsOnce(sorted, scores.Items, i, j);
  }

  function Names(sorted: seq<Scored>): (names: seq<string>)
    ensures |names| == |sorted|
  {
    seq(|sorted|, i requires 0 <= i < |sorted| => sorted[i].0)
  }

  lemma IndexRanks(sorted: seq<Scored>, scores: Scores)
    requires Indexes(sorted, scores)
    ensures Ranks(scores, Names(sorted))
  {
    var names := Names(sorted);
    forall i | 0 <= i < |names| ensures names[i] in scores && scores[names[i]] == sorted[i].1 {
      IndexMembers(sorted, scores, i);
    }
    forall i, j | 0 <= i < j < |names| ensures names[i] != names[j] {
      IndexedOnce(sorted, scores, i, j);
    }
    forall m | m in scores ensures m in names {
      var i := MemberIsIndexed(sorted, scores, m);
      assert names[i] == m;
    }
  }

  lemma WindowRanks(sorted: seq<Scored>, scores: Scores, start: int, stop: int)
    requires Indexes(sorted, scores)
    ensures RanksWindow(scores, start, stop, Window(Names(sorted), start, stop))
  {
    IndexRanks(sorted, scores);
  }

  /** The members of the range among the first n of the index. */
  function Selected(sorted: seq<Scored>, min: real, max: real, n: nat): seq<string>
    requires n <= |sorted|
  {
    if n == 0 then []
    else
      var before := Selected(sorted, min, max, n - 1);
      if Within(sorted[n - 1].1, min, max) then before + [sorted[n - 1].0] else before
  }

  lemma {:induction false} SelectedRanks(sorted: seq<Scored>, scores: Scores, min: real, max: real, n: nat)
    requires Indexes(sorted, scores) && n <= |sorted|
    ensures var r := Selected(sorted, min, max, n);
            && NoDuplicates(r)
            && (forall m :: m in r <==> m in Names(sorted)[..n] && m in scores && Within(scores[m], min, max))
            && (forall a :: 0 <= a < |r| && n > 0 ==> scores[r[a]] <= sorted[n - 1].1)
            && forall a, b :: 0 <= a < b < |r| ==> scores[r[a]] <= scores[r[b]]
  {
    if n > 0 {
      SelectedRanks(sorted, scores, min, max, n - 1);
      var names := Names(sorted);
      IndexMembers(sorted, scores, n - 1);
      assert names[..n] == names[..n - 1] + [names[n - 1]];
      forall i | 0 <= i < n - 1 ensures names[i] != names[n - 1] {
        IndexedOnce(sorted, scores, i, n - 1);
      }
    }
  }

  lemma SelectionRanksRange(sorted: seq<Scored>, scores: Scores, min: real, max: real)
    requires Indexes(sorted, scores)
    ensures RanksRange(scores, min, max, Selected(sorted, min, max, |sorted|))
  {
    SelectedRanks(sorted, scores, min, max, |sorted|);
    IndexRanks(sorted, scores);
    assert Names(sorted)[..|sorted|] == Names(sorted);
  }

  // ---------- Sorting ----------

  /** After outer round i no earlier element is above a later one. */
  ghost predicate SortedUpTo(s: seq<Scored>, i: nat) {
    forall a, b :: 0 <= a < i && a < b < |s| ==> s[a].1 <= s[b].1
  }

  method ExchangeSort(items: seq<Scored>) returns (s: seq<Scored>)
    ensures multiset(s) == multiset(items) && Ordered(s)
  {
    s := items;
    var i := 0;
    while i < |s| - 1
      invariant |s| == |items| && 0 <= i && (i <= |s| - 1 || i == 0)
      invariant multiset(s) == multiset(items) && SortedUpTo(s, i)
    {
      var j := i + 1;
      while j < |s|
        invariant |s| == |items| && i < j <= |s|
        invariant multiset(s) == multiset(items) && SortedUpTo(s, i)
        invariant forall b :: i < b < j ==> s[i].1 <= s[b].1
      {
        if s[i].1 > s[j].1 {
          s := s[i := s[j]][j := s[i]];
        }
        j := j + 1;
      }
      i := i + 1;
    }
  }

  method Cut(sorted: seq<Scored>, start: int, stop: int) returns (names: seq<string>)
    ensures names == Window(Names(sorted), start, stop)
  {
    var length := |sorted|;
    if length == 0 {
      return [];
    }
    var from, to := start, stop;
    if from < 0 {
      from := length + from;
    }
    if to < 0 {
      to := length + to;
    }
    if from < 0 {
      from := 0;
    }
    if to >= length {
      to := length - 1;
    }
    if from > to {
      return [];
    }
    names := [];
    for i := from to to + 1
      invariant |names| == i - from && forall k :: 0 <= k < |names| ==> names[k] == sorted[from + k].0
    {
      names := names + [sorted[i].0];
    }
  }

  // ---------- The sorted set ----------

  class SortedSet {
    ghost const owner: string  // the key that holds it
    var members: Scores
    var sorted: seq<Scored>
    var dirty: bool

    ghost predicate Valid()
      reads this
    {
      !dirty ==> Indexes(sorted, members)
    }

    constructor (owner: string)
      ensures Valid() && this.owner == owner && members == map[]
    {
      this.owner := owner;
      members, sorted, dirty := map[], [], false;
    }

    method Add(added: seq<Scored>)
      requires Valid()
      modifies this
      ensures Valid() && members == Scoring(old(members), added) && Rescored(old(members), added, members)
    {
      for i := 0 to |added|
        invariant Valid() && members == Scoring(old(members), added[..i])
      {
        var (member, score) := added[i];
        if member !in members || members[member] != score {
          dirty := true;
        }
        assert added[..i + 1][..i] == added[..i];
        members := members[member := score];
      }
      assert added[..|added|] == added;
      ScoringRescores(old(members), added);
    }

    method Remove(names: seq<string>)
      requires Valid()
      modifies this
      ensures Valid() && members == old(members) - set m | m in names
    {
      for i := 0 to |names|
        invariant Valid() && members == old(members) - set m | m in names[..i]
      {
        if names[i] in members {
          members := members - {names[i]};
          dirty := true;
        }
        assert names[..i + 1] == names[..i] + [names[i]];
      }
      assert names[..|names|] == names;
    }

    /** Rebuilds the index from the map, in whatever order the map is walked, and sorts it. */
    method EnsureSorted()
      requires Valid()
      modifies this`sorted, this`dirty
      ensures Valid() && !dirty
      ensures !old(dirty) ==> sorted == old(sorted)
    {
      if !dirty {
        return;
      }
      sorted := [];
      var rest := members.Items;
      while rest != {}
        invariant multiset(sorted) + multiset(rest) == multiset(members.Items)
        decreases rest
        modifies this`sorted
      {
        var item :| item in rest;
        sorted := sorted + [item];
        rest := rest - {item};
      }
      sorted := ExchangeSort(sorted);
      dirty := false;
    }

    method Range(start: int, stop: int) returns (names: seq<string>)
      requires Valid()
      modifies this`sorted, this`dirty
      ensures Valid() && !dirty && (!old(dirty) ==> sorted == old(sorted))
      ensures names == Window(Names(sorted), start, stop) && RanksWindow(members, start, stop, names)
    {
      EnsureSorted();
      WindowRanks(sorted, members, start, stop);
      names := Cut(sorted, start, stop);
    }

    method RangeByScore(min: real, max: real) returns (names: seq<string>)
      requires Valid()
      modifies this`sorted, this`dirty
      ensures Valid() && !dirty && (!old(dirty) ==> sorted == old(sorted))
      ensures names == Selected(sorted, min, max, |sorted|) && RanksRange(members, min, max, names)
      ensures forall m :: m in names <==> m in members && min <= members[m] <= max
    {
      EnsureSorted();
      names := [];
      for i := 0 to |sorted|
        invariant names == Selected(sorted, min, max, i)
      {
        if sorted[i].1 >= min && sorted[i].1 <= max {
          names := names + [sorted[i].0];
        }
      }
      SelectionRanksRange(sorted, members, min, max);
    }

    method RemoveRangeByScore(min: real, max: real) returns (removed: nat)
      requires Valid()
      modifies this
      ensures Valid() && members == OutOfRange(old(members), min, max)
      ensures forall m :: m in members <==> m in old(members) && (old(members)[m] < min || old(members)[m] > max)
      ensures removed == |old(members)| - |members|
    {
      removed := 0;
      var rest := members.Keys;
      while rest != {}
        invariant rest <= old(members).Keys && sorted == old(sorted) && dirty == old(dirty)
        invariant forall m :: m in members <==>
                    m in old(members) && (m in rest || !Within(old(members)[m], min, max))
        invariant forall m :: m in members ==> members[m] == old(members)[m]
        invariant removed + |members| == |old(members)|
        invariant removed == 0 ==> members == old(members)
        decreases rest
      {
        var member :| member in rest;
        if members[member] >= min && members[member] <= max {
          members := members - {member};
          removed := removed + 1;
        }
        rest := rest - {member};
      }
      if removed > 0 {
        dirty := true;
      }
    }
  }
}
