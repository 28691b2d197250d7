/**
 * The "seven choose three" rule enforcer: it cleans up the column list, insists
 * on the three core subjects, adds missing elective columns as nulls, clips every
 * score to its maximum, keeps for each candidate the three electives with the
 * highest graded scores and nulls the other four, and finally puts the columns
 * into a fixed order.
 */
module ExamRules {
  import opened Common
  import opened Frames

  const CoreMax := 150
  const ElectiveMax := 100

  // ---------------------------------------------------------------------------
  // Clipping

  /** One cell clipped into [0, max]; a null stays null. */
  function ClipCell(c: Option<int>, max: int): (r: Option<int>)
    requires 0 <= max
    ensures r.Some? <==> c.Some?
    ensures c.Some? ==> 0 <= r.value <= max
    ensures c.Some? && 0 <= c.value <= max ==> r == c
    ensures c.Some? && c.value < 0 ==> r == Some(0)
    ensures c.Some? && max < c.value ==> r == Some(max)
  {
    if c.Some? then Some(Clamp(c.value, 0, max)) else None
  }

  /** A whole column clipped into [0, max], cell by cell. */
  function ClipColumn(col: Column, max: int): (r: Column)
    requires 0 <= max
    ensures |r| == |col|
    ensures forall k :: 0 <= k < |col| ==> (r[k].Some? <==> col[k].Some?)
    ensures forall k :: 0 <= k < |col| && r[k].Some? ==> 0 <= r[k].value <= max
    ensures forall k :: 0 <= k < |col| && col[k].Some? && 0 <= col[k].value <= max ==> r[k] == col[k]
  {
    seq(|col|, k requires 0 <= k < |col| => ClipCell(col[k], max))
  }

  /** Clipping twice is clipping once. */
  lemma ClipIdempotent(col: Column, max: int)
    requires 0 <= max
    ensures ClipColumn(ClipColumn(col, max), max) == ClipColumn(col, max)
  {
    var once := ClipColumn(col, max);
    assert forall k :: 0 <= k < |col| ==> ClipColumn(once, max)[k] == once[k];
  }

  /** An all-null column stays all-null. */
  lemma ClipNulls(n: nat, max: int)
    requires 0 <= max
    ensures ClipColumn(Nulls(n), max) == Nulls(n)
  {
    assert forall k :: 0 <= k < n ==> ClipColumn(Nulls(n), max)[k] == None;
  }

  // ---------------------------------------------------------------------------
  // Dropping "Unnamed..." columns

  /** A column name that starts with "Unnamed" (an index column written by a spreadsheet tool). */
  predicate Unnamed(name: string)
  {
    |name| >= 7 && name[..7] == "Unnamed"
  }

  predicate Named(name: string)
  {
    !Unnamed(name)
  }

  function DropUnnamed(cols: seq<string>): (r: seq<string>)
    ensures forall x :: x in r <==> x in cols && !Unnamed(x)
  {
    Filter(cols, Named)
  }

  /** The surviving columns keep their relative order and gain no repetition. */
  lemma DropUnnamedKeepsOrder(cols: seq<string>)
    requires Distinct(cols)
    ensures Distinct(DropUnnamed(cols))
    ensures forall i, j :: 0 <= i < j < |DropUnnamed(cols)| ==>
      IndexOf(cols, DropUnnamed(cols)[i]) < IndexOf(cols, DropUnnamed(cols)[j])
  {
    FilterDistinct(cols, Named);
    forall i, j | 0 <= i < j < |DropUnnamed(cols)|
      ensures IndexOf(cols, DropUnnamed(cols)[i]) < IndexOf(cols, DropUnnamed(cols)[j])
    {
      FilterKeepsOrder(cols, Named, i, j);
    }
  }

  /** None of the names the rules work with is dropped. */
  lemma KnownNamesNamed(s: int, c: int)
    requires 0 <= s < ElectiveCount && 0 <= c < 3
    ensures Named(RawName(s)) && Named(GradedName(s)) && Named(Core150[c])
  {
    assert |RawName(s)| == 4 && |GradedName(s)| == 4 && |Core150[c]| == 2;
  }

  // ---------------------------------------------------------------------------
  // Column order

  const Identity: seq<string> := ["准考证号", "姓名"]

  /** The raw and graded names of electives 0..n-1, pair by pair. */
  function ElectivePairs(n: int): (r: seq<string>)
    requires 0 <= n <= ElectiveCount
    ensures |r| == 2 * n
  {
    if n == 0 then [] else ElectivePairs(n - 1) + [RawName(n - 1), GradedName(n - 1)]
  }

  lemma {:induction false} ElectivePairsAt(n: int, k: int)
    requires 0 <= n <= ElectiveCount && 0 <= k < 2 * n
    ensures ElectivePairs(n)[k] == if k % 2 == 0 then RawName(k / 2) else GradedName(k / 2)
  {
    if k < 2 * (n - 1) {
      ElectivePairsAt(n - 1, k);
    }
  }

  /** Candidate number, name, the three cores, then each elective's raw and graded column. */
  function Preferred(): (r: seq<string>)
    ensures |r| == 5 + 2 * ElectiveCount
  {
    Identity + Core150 + ElectivePairs(ElectiveCount)
  }

  lemma NotIdentity(s: int)
    requires 0 <= s < ElectiveCount
    ensures RawName(s) !in Identity && GradedName(s) !in Identity
  {
    assert RawName(s)[3] == '始' && GradedName(s)[3] == '分';
  }

  lemma PreferredAt(k: int)
    requires 5 <= k < |Preferred()|
    ensures Preferred()[k] == if (k - 5) % 2 == 0 then RawName((k - 5) / 2) else GradedName((k - 5) / 2)
  {
    ElectivePairsAt(ElectiveCount, k - 5);
  }

  lemma PreferredDistinct()
    ensures Distinct(Preferred())
  {
    var p := Preferred();
    forall i, j | 0 <= i < j < |p|
      ensures p[i] != p[j]
    {
      if j < 5 {
        assert i in {0, 1, 2, 3, 4} && j in {1, 2, 3, 4};
      } else if i < 5 {
        PreferredAt(j);
        var s := (j - 5) / 2;
        NotIdentity(s);
        if i >= 2 {
          NotCore(s, i - 2);
        }
      } else {
        PreferredAt(i);
        PreferredAt(j);
        var s, t := (i - 5) / 2, (j - 5) / 2;
        if s != t {
          NamesDiffer(s, t);
        }
        RawNotGraded(s, t);
        RawNotGraded(t, s);
      }
    }
  }

  function Inside(cols: seq<string>): string -> bool
  {
    x => x in cols
  }

  function Outside(cols: seq<string>): string -> bool
  {
    x => x !in cols
  }

  /** The entries of pref the table has, in the order of pref. */
  function ExistingIn(pref: seq<string>, cols: seq<string>): (r: seq<string>)
    ensures forall x :: x in r <==> x in pref && x in cols
  {
    Filter(pref, Inside(cols))
  }

  /** The table's other columns, in their original order. */
  function RemainingOf(pref: seq<string>, cols: seq<string>): (r: seq<string>)
    ensures forall x :: x in r <==> x in cols && x !in pref
  {
    Filter(cols, Outside(pref))
  }

  /** The columns reordered after pref: the entries of pref first, then the rest. */
  function ReorderBy(pref: seq<string>, cols: seq<string>): seq<string>
  {
    ExistingIn(pref, cols) + RemainingOf(pref, cols)
  }

  lemma ReorderByPermutation(pref: seq<string>, cols: seq<string>)
    requires Distinct(pref) && Distinct(cols)
    ensures |ReorderBy(pref, cols)| == |cols|
    ensures Distinct(ReorderBy(pref, cols))
    ensures multiset(ReorderBy(pref, cols)) == multiset(cols)
  {
    var front, rest := ExistingIn(pref, cols), RemainingOf(pref, cols);
    FilterDistinct(pref, Inside(cols));
    FilterDistinct(cols, Outside(pref));
    ReorderByLength(pref, cols);
    DistinctConcat(front, rest);
    DistinctMultiset(front + rest, cols);
  }

  lemma ReorderByLength(pref: seq<string>, cols: seq<string>)
    requires Distinct(pref) && Distinct(cols)
    ensures |ReorderBy(pref, cols)| == |cols|
  {
    var front := ExistingIn(pref, cols);
    var kept := Filter(cols, Inside(pref));
    FilterDistinct(pref, Inside(cols));
    FilterDistinct(cols, Inside(pref));
    FilterSplit(cols, Outside(pref), Inside(pref));
    assert (set x | x in kept) == (set x | x in front);
    DistinctCard(kept);
    DistinctCard(front);
  }

  lemma ReorderByPreferredFirst(pref: seq<string>, cols: seq<string>)
    requires Distinct(pref)
    ensures var r := ReorderBy(pref, cols); var n := |ExistingIn(pref, cols)|;
      n <= |r| && r[..n] == ExistingIn(pref, cols) &&
      (forall x :: x in r[..n] <==> x in cols && x in pref) &&
      (forall i, j :: 0 <= i < j < n ==> IndexOf(pref, r[i]) < IndexOf(pref, r[j]))
  {
    var r := ReorderBy(pref, cols);
    var front := ExistingIn(pref, cols);
    assert r[..|front|] == front;
    forall i, j | 0 <= i < j < |front|
      ensures IndexOf(pref, r[i]) < IndexOf(pref, r[j])
    {
      assert r[i] == front[i] && r[j] == front[j];
      FilterKeepsOrder(pref, Inside(cols), i, j);
    }
  }

  lemma ReorderByRestInOrder(pref: seq<string>, cols: seq<string>)
    requires Distinct(cols)
    ensures var r := ReorderBy(pref, cols); var n := |ExistingIn(pref, cols)|;
      r[n..] == RemainingOf(pref, cols) &&
      (forall x :: x in r[n..] <==> x in cols && x !in pref) &&
      (forall i, j :: n <= i < j < |r| ==> IndexOf(cols, r[i]) < IndexOf(cols, r[j]))
  {
    var r := ReorderBy(pref, cols);
    var n := |ExistingIn(pref, cols)|;
    var rest := RemainingOf(pref, cols);
    assert r[n..] == rest;
    forall i, j | n <= i < j < |r|
      ensures IndexOf(cols, r[i]) < IndexOf(cols, r[j])
    {
      assert r[i] == rest[i - n] && r[j] == rest[j - n];
      FilterKeepsOrder(cols, Outside(pref), i - n, j - n);
    }
  }

  /** The columns in their fixed final order. */
  function ReorderColumns(cols: seq<string>): (r: seq<string>)
    ensures forall x :: x in r <==> x in cols
  {
    ReorderBy(Preferred(), cols)
  }

  /** For a table without repeated names the reordering is a permutation. */
  lemma ReorderPermutation(cols: seq<string>)
    requires Distinct(cols)
    ensures |ReorderColumns(cols)| == |cols|
    ensures Distinct(ReorderColumns(cols))
    ensures multiset(ReorderColumns(cols)) == multiset(cols)
  {
    PreferredDistinct();
    ReorderByPermutation(Preferred(), cols);
  }

  /** The table's preferred columns come first, in preferred order, and only they. */
  lemma ReorderPreferredFirst(cols: seq<string>)
    ensures var r := ReorderColumns(cols); var n := |ExistingIn(Preferred(), cols)|;
      n <= |r| &&
      (forall x :: x in r[..n] <==> x in cols && x in Preferred()) &&
      (forall i, j :: 0 <= i < j < n ==> IndexOf(Preferred(), r[i]) < IndexOf(Preferred(), r[j]))
  {
    PreferredDistinct();
    ReorderByPreferredFirst(Preferred(), cols);
  }

  /** Every other column follows them, in its original relative order. */
  lemma ReorderRestInOrder(cols: seq<string>)
    requires Distinct(cols)
    ensures var r := ReorderColumns(cols); var n := |ExistingIn(Preferred(), cols)|;
      (forall x :: x in r[n..] <==> x in cols && x !in Preferred()) &&
      (forall i, j :: n <= i < j < |r| ==> IndexOf(cols, r[i]) < IndexOf(cols, r[j]))
  {
    ReorderByRestInOrder(Preferred(), cols);
  }

  // ---------------------------------------------------------------------------
  // The core check

  /** Core subject c is absent and every core subject listed before it is present. */
  predicate FirstMissingAt(cols: seq<string>, c: int)
  {
    0 <= c < 3 && Core150[c] !in cols && forall e :: 0 <= e < c ==> Core150[e] in cols
  }

  /** The first core subject, in listing order, that the table lacks. */
  function FirstMissingCore(cols: seq<string>): (r: Option<string>)
    ensures r.None? <==> forall c :: 0 <= c < 3 ==> Core150[c] in cols
    ensures r.Some? ==> exists c :: FirstMissingAt(cols, c) && r.value == Core150[c]
  {
    if Core150[0] !in cols then Some(Core150[0])
    else if Core150[1] !in cols then Some(Core150[1])
    else if Core150[2] !in cols then Some(Core150[2])
    else None
  }

  // ---------------------------------------------------------------------------
  // Choosing three of seven

  /** Score a ranks no lower than score b, a null counting as minus infinity. */
  predicate AtLeast(a: Option<int>, b: Option<int>)
  {
    b.None? || (a.Some? && a.value >= b.value)
  }

  /** The slots a mask keeps. */
  function Kept(keep: seq<bool>): set<int>
  {
    set i | 0 <= i < |keep| && keep[i]
  }

  /** Every kept slot's graded score ranks no lower than every dropped slot's. */
  predicate Dominates(g: Column, keep: seq<bool>)
    requires |keep| == |g|
  {
    forall i, j :: 0 <= i < |g| && 0 <= j < |g| && keep[i] && !keep[j] ==> AtLeast(g[i], g[j])
  }

  const FirstThree: seq<bool> := [true, true, true, false, false, false, false]

  /**
   * keep is a choice the rule may make for a row whose graded scores are g:
   * some three slots with the highest scores, ties broken in any way, or the
   * first three subjects when the row has no graded score at all.
   */
  predicate IsTopThree(g: Column, keep: seq<bool>)
    requires |g| == ElectiveCount
  {
    |keep| == ElectiveCount &&
    if Present(g) == {} then keep == FirstThree
    else |Kept(keep)| == 3 && Dominates(g, keep)
  }

  lemma SomeUnkept(mask: seq<bool>)
    requires |Kept(mask)| < |mask|
    ensures exists i :: 0 <= i < |mask| && !mask[i]
  {
    if forall i :: 0 <= i < |mask| ==> mask[i] {
      assert Kept(mask) == Interval(0, |mask|);
      IntervalCard(0, |mask|);
    }
  }

  lemma KeptAdd(mask: seq<bool>, m: int)
    requires 0 <= m < |mask| && !mask[m]
    ensures Kept(mask[m := true]) == Kept(mask) + {m}
    ensures |Kept(mask[m := true])| == |Kept(mask)| + 1
  {
    assert Kept(mask[m := true]) == Kept(mask) + {m};
  }

  /** A slot not kept yet whose score ranks no lower than any other such slot. */
  method BestUnkept(g: Column, mask: seq<bool>) returns (m: int)
    requires |g| == |mask|
    requires exists i :: 0 <= i < |mask| && !mask[i]
    ensures 0 <= m < |mask| && !mask[m]
    ensures forall j :: 0 <= j < |mask| && !mask[j] ==> AtLeast(g[m], g[j])
  {
    m := -1;
    for i := 0 to |mask|
      invariant -1 <= m < i
      invariant m == -1 ==> forall j :: 0 <= j < i ==> mask[j]
      invariant m != -1 ==> !mask[m] && forall j :: 0 <= j < i && !mask[j] ==> AtLeast(g[m], g[j])
    {
      if !mask[i] && (m == -1 || !AtLeast(g[m], g[i])) {
        m := i;
      }
    }
  }

  /**
   * The keep mask of one row: the three highest graded scores (an ascending
   * argsort's last three entries), then the first three subjects instead when
   * every graded score is null.
   */
  method SelectRow(g: Column) returns (keep: seq<bool>)
    requires |g| == ElectiveCount
    ensures IsTopThree(g, keep)
  {
    var mask := new bool[ElectiveCount](_ => false);
    assert Kept(mask[..]) == {};
    for round := 0 to 3
      invariant |Kept(mask[..])| == round
      invariant Dominates(g, mask[..])
    {
      SomeUnkept(mask[..]);
      var m := BestUnkept(g, mask[..]);
      ghost var before := mask[..];
      mask[m] := true;
      assert mask[..] == before[m := true];
      KeptAdd(before, m);
    }
    if Present(g) == {} {
      KeepFirstThree(mask);
    }
    keep := mask[..];
  }

  /** Overwrites a row of the mask so that it keeps the first three subjects only. */
  method KeepFirstThree(mask: array<bool>)
    requires mask.Length == ElectiveCount
    modifies mask
    ensures mask[..] == FirstThree
  {
    for i := 0 to ElectiveCount
      invariant forall j :: 0 <= j < i ==> mask[j] == (j < 3)
    {
      mask[i] := i < 3;
    }
  }

  /** The row after the mask keep is applied: dropped slots lose both their raw and their graded score. */
  predicate Applied(before: Row, keep: seq<bool>, after: Row)
    requires |before.raw| == ElectiveCount && |before.graded| == ElectiveCount && |keep| == ElectiveCount
  {
    after.core == before.core && |after.raw| == ElectiveCount && |after.graded| == ElectiveCount &&
    forall s :: 0 <= s < ElectiveCount ==>
      after.raw[s] == (if keep[s] then before.raw[s] else None) &&
      after.graded[s] == (if keep[s] then before.graded[s] else None)
  }

  /** after is the row before once the rule has kept three electives, by some admissible tie-break. */
  ghost predicate SelectedRow(before: Row, after: Row)
    requires |before.raw| == ElectiveCount && |before.graded| == ElectiveCount
  {
    exists keep :: IsTopThree(before.graded, keep) && Applied(before, keep, after)
  }

  /** After selection a row has min(3, n) graded scores, where n is the number it had before. */
  lemma SelectionCount(before: Row, after: Row)
    requires |before.raw| == ElectiveCount && |before.graded| == ElectiveCount
    requires SelectedRow(before, after)
    ensures |Present(after.graded)| == if |Present(before.graded)| < 3 then |Present(before.graded)| else 3
  {
    var keep :| IsTopThree(before.graded, keep) && Applied(before, keep, after);
    var n, k := Present(before.graded), Kept(keep);
    assert Present(after.graded) == n * k;
    if n == {} {
      assert n * k == {};
    } else if exists i :: i in k && i !in n {
      var i :| i in k && i !in n;
      assert n <= k;
      assert n * k == n;
      SubsetCard(n, k);
    } else {
      assert k <= n;
      assert n * k == k;
      SubsetCard(k, n);
    }
  }

  /** Every graded score kept ranks no lower than every graded score dropped. */
  lemma SelectionOrder(before: Row, after: Row, i: int, j: int)
    requires |before.raw| == ElectiveCount && |before.graded| == ElectiveCount
    requires SelectedRow(before, after)
    requires 0 <= i < ElectiveCount && 0 <= j < ElectiveCount
    requires after.graded[i].Some? && before.graded[j].Some? && after.graded[j].None?
    ensures after.graded[i] == before.graded[i]
    ensures before.graded[i].value >= before.graded[j].value
  {
    var keep :| IsTopThree(before.graded, keep) && Applied(before, keep, after);
    assert j in Present(before.graded);
  }

  /** Each subject is either kept whole or dropped whole; the core scores never change. */
  lemma SelectionKeepsOrDrops(before: Row, after: Row, s: int)
    requires |before.raw| == ElectiveCount && |before.graded| == ElectiveCount
    requires SelectedRow(before, after)
    requires 0 <= s < ElectiveCount
    ensures after.core == before.core
    ensures |after.raw| == ElectiveCount && |after.graded| == ElectiveCount
    ensures (after.raw[s] == before.raw[s] && after.graded[s] == before.graded[s]) ||
            (after.raw[s] == None && after.graded[s] == None)
  {
  }

  /** A row without graded scores keeps exactly the first three subjects' raw scores. */
  lemma NoGradesKeepsFirstThree(before: Row, after: Row)
    requires |before.raw| == ElectiveCount && |before.graded| == ElectiveCount
    requires SelectedRow(before, after)
    requires forall s :: 0 <= s < ElectiveCount ==> before.graded[s].None?
    ensures forall s :: 0 <= s < ElectiveCount ==>
      after.raw[s] == (if s < 3 then before.raw[s] else None) && after.graded[s] == None
  {
    assert Present(before.graded) == {};
  }

  // ---------------------------------------------------------------------------
  // The whole table

  /** The table once every missing elective column has been added as nulls. */
  function WithElectives(f: Frame): (g: Frame)
    requires f.Valid()
    ensures g.Valid()
  {
    Frame(AddElectiveColumns(f.columns), f.height, f.core,
      seq(ElectiveCount, s requires 0 <= s < ElectiveCount => RawOrNulls(f, s)),
      seq(ElectiveCount, s requires 0 <= s < ElectiveCount => GradedOrNulls(f, s)))
  }

  /** The table with core scores clipped into [0, 150] and elective scores into [0, 100]. */
  function Clipped(f: Frame): (g: Frame)
    requires f.Valid()
    ensures g.Valid()
  {
    f.(core := seq(3, c requires 0 <= c < 3 => ClipColumn(f.core[c], CoreMax)),
       raw := seq(ElectiveCount, s requires 0 <= s < ElectiveCount => ClipColumn(f.raw[s], ElectiveMax)),
       graded := seq(ElectiveCount, s requires 0 <= s < ElectiveCount => ClipColumn(f.graded[s], ElectiveMax)))
  }

  /** The table as it stands just before the selection: unnamed columns dropped, electives added, scores clipped. */
  function Prepared(f: Frame): (g: Frame)
    requires f.Valid()
    ensures g.Valid()
  {
    Clipped(WithElectives(f.(columns := DropUnnamed(f.columns))))
  }

  /**
   * g is what the rule makes of f: the columns reordered, the core scores
   * clipped, and every row the prepared row with three electives kept.
   */
  ghost predicate Enforced(f: Frame, g: Frame)
    requires f.Valid()
  {
    var p := Prepared(f);
    g.Valid() && g.height == f.height && g.columns == ReorderColumns(p.columns) && g.core == p.core &&
    forall k :: 0 <= k < f.height ==> SelectedRow(RowAt(p, k), RowAt(g, k))
  }

  /** Adds each absent elective raw column, then its graded column, as nulls. */
  method AddMissingElectives(f: Frame) returns (g: Frame)
    requires f.Valid()
    ensures g.columns == AddElectiveColumnsUpTo(f.columns, ElectiveCount) && g.height == f.height && g.core == f.core
    ensures AddedUpTo(f, ElectiveCount, g.raw, g.graded)
  {
    var columns, raw, graded := f.columns, f.raw, f.graded;
    for s := 0 to ElectiveCount
      invariant columns == AddElectiveColumnsUpTo(f.columns, s)
      invariant AddedUpTo(f, s, raw, graded)
    {
      columns, raw, graded := AddElective(f, s, columns, raw, graded);
    }
    g := Frame(columns, f.height, f.core, raw, graded);
  }

  /** Electives 0..s-1 have been visited (absent columns now nulls) and the others are untouched. */
  ghost predicate AddedUpTo(f: Frame, s: int, raw: seq<Column>, graded: seq<Column>)
    requires f.Valid() && 0 <= s <= ElectiveCount
  {
    |raw| == ElectiveCount && |graded| == ElectiveCount &&
    (forall t :: 0 <= t < s ==> raw[t] == RawOrNulls(f, t) && graded[t] == GradedOrNulls(f, t)) &&
    (forall t :: s <= t < ElectiveCount ==> raw[t] == f.raw[t] && graded[t] == f.graded[t])
  }

  /** A table that agrees with WithElectives(f) slot by slot is WithElectives(f). */
  lemma WithElectivesSlots(f: Frame, g: Frame)
    requires f.Valid()
    requires g.columns == AddElectiveColumnsUpTo(f.columns, ElectiveCount) && g.height == f.height && g.core == f.core
    requires AddedUpTo(f, ElectiveCount, g.raw, g.graded)
    ensures g == WithElectives(f)
  {
  }

  /** One step of AddMissingElectives: elective s's raw column, then its graded column. */
  method AddElective(f: Frame, s: int, columns: seq<string>, raw: seq<Column>, graded: seq<Column>)
    returns (newColumns: seq<string>, newRaw: seq<Column>, newGraded: seq<Column>)
    requires f.Valid() && 0 <= s < ElectiveCount
    requires columns == AddElectiveColumnsUpTo(f.columns, s)
    requires AddedUpTo(f, s, raw, graded)
    ensures newColumns == AddElectiveColumnsUpTo(f.columns, s + 1)
    ensures AddedUpTo(f, s + 1, newRaw, newGraded)
  {
    UnvisitedRawName(f.columns, s, s);
    UnvisitedGradedName(f.columns, s, s);
    RawNotGraded(s, s);
    newColumns, newRaw, newGraded := columns, raw, graded;
    if RawName(s) !in newColumns {
      newColumns := newColumns + [RawName(s)];
      newRaw := newRaw[s := Nulls(f.height)];
    }
    if GradedName(s) !in newColumns {
      newColumns := newColumns + [GradedName(s)];
      newGraded := newGraded[s := Nulls(f.height)];
    }
    assert newRaw == raw[s := RawOrNulls(f, s)] && newGraded == graded[s := GradedOrNulls(f, s)];
  }

  /** Clips the core columns, then each elective's raw and graded column. */
  method ClipScores(f: Frame) returns (g: Frame)
    requires f.Valid()
    ensures g == Clipped(f)
  {
    var core := f.core;
    for c := 0 to 3
      invariant |core| == 3
      invariant forall e :: 0 <= e < c ==> core[e] == ClipColumn(f.core[e], CoreMax)
      invariant forall e :: c <= e < 3 ==> core[e] == f.core[e]
    {
      core := core[c := ClipColumn(core[c], CoreMax)];
    }
    var raw, graded := f.raw, f.graded;
    for s := 0 to ElectiveCount
      invariant |raw| == ElectiveCount && |graded| == ElectiveCount
      invariant forall t :: 0 <= t < s ==>
        raw[t] == ClipColumn(f.raw[t], ElectiveMax) && graded[t] == ClipColumn(f.graded[t], ElectiveMax)
      invariant forall t :: s <= t < ElectiveCount ==> raw[t] == f.raw[t] && graded[t] == f.graded[t]
    {
      raw := raw[s := ClipColumn(raw[s], ElectiveMax)];
      graded := graded[s := ClipColumn(graded[s], ElectiveMax)];
    }
    g := f.(core := core, raw := raw, graded := graded);
  }

  /** One keep mask per row. */
  method SelectRows(p: Frame) returns (masks: seq<seq<bool>>)
    requires p.Valid()
    ensures |masks| == p.height
    ensures forall k :: 0 <= k < p.height ==> IsTopThree(RowAt(p, k).graded, masks[k])
  {
    masks := [];
    for k := 0 to p.height
      invariant |masks| == k
      invariant forall q :: 0 <= q < k ==> IsTopThree(RowAt(p, q).graded, masks[q])
    {
      var keep := SelectRow(RowAt(p, k).graded);
      masks := masks + [keep];
    }
  }

  /** Column col with the cells of the rows that drop subject s nulled. */
  function Masked(col: Column, masks: seq<seq<bool>>, s: int): (r: Column)
    requires |masks| == |col| && 0 <= s < ElectiveCount
    requires forall k :: 0 <= k < |col| ==> |masks[k]| == ElectiveCount
    ensures |r| == |col|
  {
    seq(|col|, k requires 0 <= k < |col| => if masks[k][s] then col[k] else None)
  }

  /** Nulls, subject by subject, the raw and graded cells of every row that drops it. */
  method DropUnselected(p: Frame, masks: seq<seq<bool>>) returns (g: Frame)
    requires p.Valid() && |masks| == p.height
    requires forall k :: 0 <= k < p.height ==> |masks[k]| == ElectiveCount
    ensures g.Valid() && g.columns == p.columns && g.height == p.height && g.core == p.core
    ensures forall s, k :: 0 <= s < ElectiveCount && 0 <= k < p.height ==>
      g.raw[s][k] == (if masks[k][s] then p.raw[s][k] else None) &&
      g.graded[s][k] == (if masks[k][s] then p.graded[s][k] else None)
  {
    var raw, graded := p.raw, p.graded;
    for s := 0 to ElectiveCount
      invariant |raw| == ElectiveCount && |graded| == ElectiveCount
      invariant forall t :: 0 <= t < s ==> raw[t] == Masked(p.raw[t], masks, t) && graded[t] == Masked(p.graded[t], masks, t)
      invariant forall t :: s <= t < ElectiveCount ==> raw[t] == p.raw[t] && graded[t] == p.graded[t]
    {
      raw := raw[s := Masked(raw[s], masks, s)];
      graded := graded[s := Masked(graded[s], masks, s)];
    }
    g := p.(raw := raw, graded := graded);
  }

  /** Row k of the masked table is row k of p with mask k applied. */
  lemma MaskedRow(p: Frame, masks: seq<seq<bool>>, g: Frame, k: int)
    requires p.Valid() && g.Valid() && g.height == p.height && g.core == p.core && |masks| == p.height
    requires 0 <= k < p.height && IsTopThree(RowAt(p, k).graded, masks[k])
    requires forall s :: 0 <= s < ElectiveCount ==>
      g.raw[s][k] == (if masks[k][s] then p.raw[s][k] else None) &&
      g.graded[s][k] == (if masks[k][s] then p.graded[s][k] else None)
    ensures SelectedRow(RowAt(p, k), RowAt(g, k))
  {
    var before, after := RowAt(p, k), RowAt(g, k);
    assert after.core == before.core;
    assert Applied(before, masks[k], after);
  }

  /** The selection step: masks every row and nulls the dropped cells. */
  method SelectAndDrop(p: Frame) returns (g: Frame)
    requires p.Valid()
    ensures g.Valid() && g.columns == p.columns && g.height == p.height && g.core == p.core
    ensures forall k :: 0 <= k < p.height ==> SelectedRow(RowAt(p, k), RowAt(g, k))
  {
    var masks := SelectRows(p);
    g := DropUnselected(p, masks);
    forall k | 0 <= k < p.height
      ensures SelectedRow(RowAt(p, k), RowAt(g, k))
    {
      MaskedRow(p, masks, g, k);
    }
  }

  lemma RowAtIgnoresColumns(f: Frame, g: Frame, k: int)
    requires f.Valid() && g == f.(columns := g.columns) && 0 <= k < f.height
    ensures g.Valid() && RowAt(g, k) == RowAt(f, k)
  {
  }

  /**
   * The rule as a whole: fails with the name of the first absent core subject,
   * and otherwise returns the enforced table.
   */
  method EnforceRules(f: Frame) returns (r: Result<Frame, string>)
    requires f.Valid()
    ensures r.Failure? <==> exists c :: 0 <= c < 3 && Core150[c] !in f.columns
    ensures r.Failure? ==> FirstMissingCore(f.columns) == Some(r.error)
    ensures r.Success? ==> Enforced(f, r.value)
  {
    var d := f.(columns := DropUnnamed(f.columns));
    for c := 0 to 3
      invariant forall e :: 0 <= e < c ==> Core150[e] in f.columns
    {
      KnownNamesNamed(0, c);
      if Core150[c] !in d.columns {
        assert FirstMissingAt(f.columns, c);
        return Failure(Core150[c]);
      }
    }
    var e := AddMissingElectives(d);
    WithElectivesSlots(d, e);
    var p := ClipScores(e);
    var h := SelectAndDrop(p);
    var g := h.(columns := ReorderColumns(h.columns));
    forall k | 0 <= k < f.height
      ensures SelectedRow(RowAt(p, k), RowAt(g, k))
    {
      RowAtIgnoresColumns(h, g, k);
    }
    r := Success(g);
  }

  /** Every score of an enforced table lies within its maximum, and a row keeps at most three graded scores. */
  lemma EnforcedBounds(f: Frame, g: Frame, k: int)
    requires f.Valid() && Enforced(f, g) && 0 <= k < f.height
    ensures forall c :: 0 <= c < 3 && g.core[c][k].Some? ==> 0 <= g.core[c][k].value <= CoreMax
    ensures forall s :: 0 <= s < ElectiveCount && g.raw[s][k].Some? ==> 0 <= g.raw[s][k].value <= ElectiveMax
    ensures forall s :: 0 <= s < ElectiveCount && g.graded[s][k].Some? ==> 0 <= g.graded[s][k].value <= ElectiveMax
    ensures |Present(RowAt(g, k).graded)| <= 3
  {
    var p := Prepared(f);
    var before, after := RowAt(p, k), RowAt(g, k);
    SelectionCount(before, after);
    forall s | 0 <= s < ElectiveCount
      ensures g.raw[s][k].Some? ==> 0 <= g.raw[s][k].value <= ElectiveMax
      ensures g.graded[s][k].Some? ==> 0 <= g.graded[s][k].value <= ElectiveMax
    {
      SelectionKeepsOrDrops(before, after, s);
    }
  }

  /** A subject whose raw column the input lacks has a null raw score in every row of the result. */
  lemma MissingRawStaysNull(f: Frame, g: Frame, s: int)
    requires f.Valid() && Enforced(f, g) && 0 <= s < ElectiveCount
    requires RawName(s) !in f.columns
    ensures forall k :: 0 <= k < f.height ==> g.raw[s][k] == None
  {
    var p := Prepared(f);
    PreparedMissingRaw(f, s);
    forall k | 0 <= k < f.height
      ensures g.raw[s][k] == None
    {
      assert SelectedRow(RowAt(p, k), RowAt(g, k));
      SelectionKeepsOrDrops(RowAt(p, k), RowAt(g, k), s);
    }
  }

  lemma PreparedMissingRaw(f: Frame, s: int)
    requires f.Valid() && 0 <= s < ElectiveCount
    requires RawName(s) !in f.columns
    ensures Prepared(f).raw[s] == Nulls(f.height)
  {
    var d := f.(columns := DropUnnamed(f.columns));
    assert RawName(s) !in d.columns;
    assert WithElectives(d).raw[s] == Nulls(f.height);
    ClipNulls(f.height, ElectiveMax);
  }

  /** Likewise for a graded column the input lacks. */
  lemma MissingGradedStaysNull(f: Frame, g: Frame, s: int)
    requires f.Valid() && Enforced(f, g) && 0 <= s < ElectiveCount
    requires GradedName(s) !in f.columns
    ensures forall k :: 0 <= k < f.height ==> g.graded[s][k] == None
  {
    var p := Prepared(f);
    PreparedMissingGraded(f, s);
    forall k | 0 <= k < f.height
      ensures g.graded[s][k] == None
    {
      assert SelectedRow(RowAt(p, k), RowAt(g, k));
      SelectionKeepsOrDrops(RowAt(p, k), RowAt(g, k), s);
    }
  }

  lemma PreparedMissingGraded(f: Frame, s: int)
    requires f.Valid() && 0 <= s < ElectiveCount
    requires GradedName(s) !in f.columns
    ensures Prepared(f).graded[s] == Nulls(f.height)
  {
    var d := f.(columns := DropUnnamed(f.columns));
    assert GradedName(s) !in d.columns;
    assert WithElectives(d).graded[s] == Nulls(f.height);
    ClipNulls(f.height, ElectiveMax);
  }

  // ---------------------------------------------------------------------------
  // Total score

  /** The sum of the non-null cells; nulls are skipped. */
  function SumPresent(cells: seq<Option<int>>): int
  {
    if cells == [] then 0
    else SumPresent(cells[..|cells| - 1]) + (if cells[|cells| - 1].Some? then cells[|cells| - 1].value else 0)
  }

  /** A candidate's total: the three core scores plus the graded elective scores, nulls counting as nothing. */
  function TotalScore(row: Row): (t: int)
    ensures t == SumPresent(row.core + row.graded)
  {
    SumPresentAppend(row.core, row.graded);
    SumPresent(row.core) + SumPresent(row.graded)
  }

  /** Summing two lists of cells one after the other is summing their concatenation. */
  lemma {:induction false} SumPresentAppend(a: seq<Option<int>>, b: seq<Option<int>>)
    ensures SumPresent(a + b) == SumPresent(a) + SumPresent(b)
  {
    if b != [] {
      var n := |b| - 1;
      assert (a + b)[..|a + b| - 1] == a + b[..n];
      assert (a + b)[|a + b| - 1] == b[n];
      SumPresentAppend(a, b[..n]);
      assert SumPresent(b) == SumPresent(b[..n]) + (if b[n].Some? then b[n].value else 0);
    } else {
      assert a + b == a;
    }
  }

  lemma {:induction false} SumPresentBound(cells: seq<Option<int>>, max: int)
    requires 0 <= max
    requires forall k :: 0 <= k < |cells| && cells[k].Some? ==> 0 <= cells[k].value <= max
    ensures 0 <= SumPresent(cells) <= max * |Present(cells)|
  {
    if cells != [] {
      var n := |cells| - 1;
      var init := cells[..n];
      assert forall k :: 0 <= k < n ==> init[k] == cells[k];
      SumPresentBound(init, max);
      PresentSnoc(cells);
      assert max * (|Present(init)| + 1) == max * |Present(init)| + max;
    }
  }

  /** The last cell adds one non-null position or none. */
  lemma PresentSnoc(cells: seq<Option<int>>)
    requires cells != []
    ensures var n := |cells| - 1;
      |Present(cells)| == |Present(cells[..n])| + (if cells[n].Some? then 1 else 0)
  {
    var n := |cells| - 1;
    var init := cells[..n];
    if cells[n].Some? {
      assert Present(cells) == Present(init) + {n};
    } else {
      assert Present(cells) == Present(init);
    }
  }

  lemma PresentWithin(cells: seq<Option<int>>)
    ensures |Present(cells)| <= |cells|
  {
    assert Present(cells) <= Interval(0, |cells|);
    SubsetCard(Present(cells), Interval(0, |cells|));
    IntervalCard(0, |cells|);
  }

  /** In an enforced table every candidate's total lies between 0 and 3 * 150 + 3 * 100 = 750. */
  lemma TotalBound(f: Frame, g: Frame, k: int)
    requires f.Valid() && Enforced(f, g) && 0 <= k < f.height
    ensures 0 <= TotalScore(RowAt(g, k)) <= 3 * CoreMax + 3 * ElectiveMax
  {
    var row := RowAt(g, k);
    EnforcedBounds(f, g, k);
    SumPresentBound(row.core, CoreMax);
    SumPresentBound(row.graded, ElectiveMax);
    PresentWithin(row.core);
  }

  /**
   * A candidate with core scores 90, 95, 88 and graded scores only in physics
   * (90), chemistry (85) and biology (80) keeps those three and totals 528.
   */
  lemma Scenario528(before: Row, after: Row)
    requires |before.raw| == ElectiveCount
    requires before.core == [Some(90), Some(95), Some(88)]
    requires before.graded == [None, None, None, Some(90), Some(85), Some(80), None]
    requires SelectedRow(before, after)
    ensures after.graded == before.graded
    ensures TotalScore(after) == 528
  {
    var g := before.graded;
    var chosen: set<int> := {3, 4, 5};
    assert Present(g) == chosen;
    SelectionCount(before, after);
    assert Present(after.graded) <= chosen by {
      forall s | s in Present(after.graded)
        ensures s in chosen
      {
        SelectionKeepsOrDrops(before, after, s);
      }
    }
    assert |chosen| == 3;
    SubsetSameCard(Present(after.graded), chosen);
    forall s | 0 <= s < ElectiveCount
      ensures after.graded[s] == g[s]
    {
      SelectionKeepsOrDrops(before, after, s);
      if s in chosen {
        assert s in Present(after.graded);
      }
    }
    SelectionKeepsOrDrops(before, after, 0);
    assert after.graded == g;
    ScenarioTotal(after);
  }

  lemma ScenarioTotal(row: Row)
    requires row.core == [Some(90), Some(95), Some(88)]
    requires row.graded == [None, None, None, Some(90), Some(85), Some(80), None]
    ensures TotalScore(row) == 528
  {
    var c, g := row.core, row.graded;
    assert c[..2][..1] == c[..1];
    assert c[..3][..2] == c[..2];
    assert c[..2] == c[..|c| - 1];
    assert SumPresent(c[..1]) == 90;
    assert SumPresent(c[..2]) == 185;
    assert SumPresent(c) == 273;
    assert g[..2][..1] == g[..1];
    assert g[..3][..2] == g[..2];
    assert g[..4][..3] == g[..3];
    assert g[..5][..4] == g[..4];
    assert g[..6][..5] == g[..5];
    assert g[..6] == g[..|g| - 1];
    assert SumPresent(g[..1]) == 0;
    assert SumPresent(g[..2]) == 0;
    assert SumPresent(g[..3]) == 0;
    assert SumPresent(g[..4]) == 90;
    assert SumPresent(g[..5]) == 175;
    assert SumPresent(g[..6]) == 255;
  }

}
