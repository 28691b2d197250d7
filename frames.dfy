/**
 * The score table both scripts work on, column by column.
 *
 * A frame keeps the ordered list of its column names and, for the columns the
 * scripts compute with, their cells: the three 150-point core subjects and the
 * raw and graded columns of the seven electives. A slot whose name is absent
 * from `columns` holds no data; the cells of every other column (candidate
 * number, name, ...) are not modelled, only their names.
 */
module Frames {
  import opened Common

  /** The seven electives in listing order: (subject, raw column, graded column). */
  const Subjects: seq<(string, string, string)> := [
    ("历史", "历史原始", "历史赋分"),
    ("地理", "地理原始", "地理赋分"),
    ("政治", "政治原始", "政治赋分"),
    ("物理", "物理原始", "物理赋分"),
    ("化学", "化学原始", "化学赋分"),
    ("生物", "生物原始", "生物赋分"),
    ("技术", "技术原始", "技术赋分")
  ]

  /** The three core subjects, each out of 150. */
  const Core150: seq<string> := ["语文", "数学", "英语"]

  const ElectiveCount := 7

  function RawName(s: int): string
    requires 0 <= s < ElectiveCount
  {
    Subjects[s].1
  }

  function GradedName(s: int): string
    requires 0 <= s < ElectiveCount
  {
    Subjects[s].2
  }

  /** Two different electives have different raw names and different graded names. */
  lemma NamesDiffer(s: int, t: int)
    requires 0 <= s < ElectiveCount && 0 <= t < ElectiveCount && s != t
    ensures RawName(s) != RawName(t) && GradedName(s) != GradedName(t)
  {
    // the first character names the subject
    assert RawName(s)[0] != RawName(t)[0] && GradedName(s)[0] != GradedName(t)[0];
  }

  /** No raw name is a graded name: the former end in 原始, the latter in 赋分. */
  lemma RawNotGraded(s: int, t: int)
    requires 0 <= s < ElectiveCount && 0 <= t < ElectiveCount
    ensures RawName(s) != GradedName(t)
  {
    assert RawName(s)[3] == '始' && GradedName(t)[3] == '分';
  }

  /** No elective column is named like a core subject. */
  lemma NotCore(s: int, c: int)
    requires 0 <= s < ElectiveCount && 0 <= c < 3
    ensures RawName(s) != Core150[c] && GradedName(s) != Core150[c]
  {
    assert |Core150[c]| == 2 && |RawName(s)| == 4 && |GradedName(s)| == 4;
  }

  datatype Frame = Frame(columns: seq<string>, height: nat, core: seq<Column>, raw: seq<Column>, graded: seq<Column>)
  {
    ghost predicate Valid()
    {
      && |core| == 3 && |raw| == ElectiveCount && |graded| == ElectiveCount
      && (forall c :: 0 <= c < 3 ==> |core[c]| == height)
      && (forall s :: 0 <= s < ElectiveCount ==> |raw[s]| == height && |graded[s]| == height)
    }
  }

  /** Appends name unless it is already a column. */
  function AddColumn(cols: seq<string>, name: string): (r: seq<string>)
    ensures name in r
    ensures forall x :: x in cols ==> x in r
  {
    if name in cols then cols else cols + [name]
  }

  /** Adding a column keeps the old list in front and creates no repetition. */
  lemma AddColumnAppends(cols: seq<string>, name: string)
    ensures var r := AddColumn(cols, name);
      |cols| <= |r| && r[..|cols|] == cols && (Distinct(cols) ==> Distinct(r))
  {
    var r := AddColumn(cols, name);
    assert r[..|cols|] == cols;
  }

  /** Adding a column adds that one name and nothing else. */
  lemma AddColumnOnly(cols: seq<string>, name: string, x: string)
    ensures x in AddColumn(cols, name) <==> x in cols || x == name
  {
  }

  /**
   * The column list after visiting electives 0..n-1 in listing order and
   * appending, for each, its raw column and then its graded column when absent.
   */
  function AddElectiveColumnsUpTo(cols: seq<string>, n: int): seq<string>
    requires 0 <= n <= ElectiveCount
  {
    if n == 0 then cols
    else AddColumn(AddColumn(AddElectiveColumnsUpTo(cols, n - 1), RawName(n - 1)), GradedName(n - 1))
  }

  /** The visit only appends: the old columns stay in front, in their order. */
  lemma {:induction false} AddElectiveColumnsUpToAppends(cols: seq<string>, n: int)
    requires 0 <= n <= ElectiveCount
    ensures var r := AddElectiveColumnsUpTo(cols, n);
      |cols| <= |r| && r[..|cols|] == cols && (Distinct(cols) ==> Distinct(r))
  {
    if n > 0 {
      AddElectiveColumnsUpToAppends(cols, n - 1);
      var prev := AddElectiveColumnsUpTo(cols, n - 1);
      AddColumnAppends(prev, RawName(n - 1));
      AddColumnAppends(AddColumn(prev, RawName(n - 1)), GradedName(n - 1));
      var r := AddElectiveColumnsUpTo(cols, n);
      assert r[..|prev|] == prev;
      assert r[..|cols|] == prev[..|cols|];
    }
  }

  /** Every visited elective has both of its columns. */
  lemma {:induction false} AddElectiveColumnsUpToNames(cols: seq<string>, n: int)
    requires 0 <= n <= ElectiveCount
    ensures forall s :: 0 <= s < n ==>
      RawName(s) in AddElectiveColumnsUpTo(cols, n) && GradedName(s) in AddElectiveColumnsUpTo(cols, n)
  {
    if n > 0 {
      AddElectiveColumnsUpToNames(cols, n - 1);
      var prev := AddElectiveColumnsUpTo(cols, n - 1);
      var r := AddElectiveColumnsUpTo(cols, n);
      forall s | 0 <= s < n
        ensures RawName(s) in r && GradedName(s) in r
      {
        if s < n - 1 {
          assert RawName(s) in prev && GradedName(s) in prev;
        }
      }
    }
  }

  /** The visit adds only the visited electives' raw and graded names. */
  lemma {:induction false} AddElectiveColumnsUpToOnly(cols: seq<string>, n: int, x: string)
    requires 0 <= n <= ElectiveCount
    ensures x in AddElectiveColumnsUpTo(cols, n) ==>
      x in cols || exists s :: 0 <= s < n && (x == RawName(s) || x == GradedName(s))
  {
    if n > 0 {
      var prev := AddElectiveColumnsUpTo(cols, n - 1);
      AddElectiveColumnsUpToOnly(cols, n - 1, x);
      AddColumnOnly(prev, RawName(n - 1), x);
      AddColumnOnly(AddColumn(prev, RawName(n - 1)), GradedName(n - 1), x);
    }
  }

  /** An elective not visited yet has its raw column exactly when the original list had it. */
  lemma {:induction false} UnvisitedRawName(cols: seq<string>, n: int, t: int)
    requires 0 <= n <= t < ElectiveCount
    ensures RawName(t) in AddElectiveColumnsUpTo(cols, n) <==> RawName(t) in cols
  {
    if n > 0 {
      UnvisitedRawName(cols, n - 1, t);
      var prev := AddElectiveColumnsUpTo(cols, n - 1);
      NamesDiffer(n - 1, t);
      RawNotGraded(t, n - 1);
      AddColumnOnly(prev, RawName(n - 1), RawName(t));
      AddColumnOnly(AddColumn(prev, RawName(n - 1)), GradedName(n - 1), RawName(t));
    }
  }

  /** Likewise for the graded column of an elective not visited yet. */
  lemma {:induction false} UnvisitedGradedName(cols: seq<string>, n: int, t: int)
    requires 0 <= n <= t < ElectiveCount
    ensures GradedName(t) in AddElectiveColumnsUpTo(cols, n) <==> GradedName(t) in cols
  {
    if n > 0 {
      UnvisitedGradedName(cols, n - 1, t);
      var prev := AddElectiveColumnsUpTo(cols, n - 1);
      NamesDiffer(n - 1, t);
      RawNotGraded(n - 1, t);
      AddColumnOnly(prev, RawName(n - 1), GradedName(t));
      AddColumnOnly(AddColumn(prev, RawName(n - 1)), GradedName(n - 1), GradedName(t));
    }
  }

  /** The column list after every missing elective column has been appended. */
  function AddElectiveColumns(cols: seq<string>): (r: seq<string>)
    ensures |cols| <= |r| && r[..|cols|] == cols
    ensures forall x :: x in cols ==> x in r
    ensures forall s :: 0 <= s < ElectiveCount ==> RawName(s) in r && GradedName(s) in r
    ensures forall x :: x in r ==>
      x in cols || exists s :: 0 <= s < ElectiveCount && (x == RawName(s) || x == GradedName(s))
    ensures Distinct(cols) ==> Distinct(r)
  {
    AddElectiveColumnsUpToAppends(cols, ElectiveCount);
    AddElectiveColumnsUpToNames(cols, ElectiveCount);
    var r := AddElectiveColumnsUpTo(cols, ElectiveCount);
    forall x | x in r
      ensures x in cols || exists s :: 0 <= s < ElectiveCount && (x == RawName(s) || x == GradedName(s))
    {
      AddElectiveColumnsUpToOnly(cols, ElectiveCount, x);
    }
    assert forall x :: x in cols ==> x in r[..|cols|];
    r
  }

  /** The cells of elective raw column s once a missing column has been added as nulls. */
  function RawOrNulls(f: Frame, s: int): (c: Column)
    requires f.Valid() && 0 <= s < ElectiveCount
    ensures |c| == f.height
    ensures RawName(s) !in f.columns ==> c == Nulls(f.height)
  {
    if RawName(s) in f.columns then f.raw[s] else Nulls(f.height)
  }

  function GradedOrNulls(f: Frame, s: int): (c: Column)
    requires f.Valid() && 0 <= s < ElectiveCount
    ensures |c| == f.height
    ensures GradedName(s) !in f.columns ==> c == Nulls(f.height)
  {
    if GradedName(s) in f.columns then f.graded[s] else Nulls(f.height)
  }

  /** One candidate's scores: core, elective raw and elective graded, in listing order. */
  datatype Row = Row(core: seq<Option<int>>, raw: seq<Option<int>>, graded: seq<Option<int>>)

  function RowAt(f: Frame, k: int): (r: Row)
    requires f.Valid() && 0 <= k < f.height
    ensures |r.core| == 3 && |r.raw| == ElectiveCount && |r.graded| == ElectiveCount
    ensures forall c :: 0 <= c < 3 ==> r.core[c] == f.core[c][k]
    ensures forall s :: 0 <= s < ElectiveCount ==> r.raw[s] == f.raw[s][k] && r.graded[s] == f.graded[s][k]
  {
    Row(seq(3, c requires 0 <= c < 3 => f.core[c][k]),
        seq(ElectiveCount, s requires 0 <= s < ElectiveCount => f.raw[s][k]),
        seq(ElectiveCount, s requires 0 <= s < ElectiveCount => f.graded[s][k]))
  }
}
