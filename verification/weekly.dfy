/**
  The weekly-accuracy builder: after the header check, every record is flagged
  correct when its predicted elimination equals the actual one, records are
  grouped by (Season, Week), and each group gets accuracy
  correct / (correct + incorrect) as an exact rational.
 */
module Weekly {
  import opened Wrappers
  import Columns

  /** The grouping key of a record and of an accuracy entry. */
  datatype Key = Key(season: int, week: int)

  /** One already-parsed input row, with its four canonical fields. */
  datatype Record = Record(season: int, week: int, predicted: string, actual: string)
  {
    function GroupKey(): Key { Key(season, week) }
  }

  /** The two ways the accuracy pipeline can fail. */
  datatype AccuracyError =
    | MissingColumnsError(missing: set<string>)  // required headers absent after renaming
    | NoWeeklyData                          // the aggregated table is empty, so it has no Season/Week column

  /** Per-group tallies of the correctness flag. */
  datatype Counts = Counts(correct: nat, incorrect: nat)
  {
    function Total(): nat { correct + incorrect }
  }

  /** The aggregated table: one accuracy per (Season, Week) group. */
  type AccuracyTable = map<Key, real>

  // ---------------------------------------------------------------------------
  // Correctness flag

  predicate IsCorrect(r: Record)
  {
    r.predicted == r.actual
  }

  /** The IsCorrect column: one flag per row, in row order. */
  function Flags(rows: seq<Record>): (flags: seq<bool>)
    ensures |flags| == |rows|
    ensures forall i :: 0 <= i < |rows| ==> (flags[i] <==> rows[i].predicted == rows[i].actual)
  {
    if rows == [] then [] else [IsCorrect(rows[0])] + Flags(rows[1..])
  }

  /** Number of true flags (the sum of a boolean column). */
  function CountTrue(flags: seq<bool>): nat
  {
    if flags == [] then 0 else (if flags[0] then 1 else 0) + CountTrue(flags[1..])
  }

  /** Number of flags equal to False. */
  function CountFalse(flags: seq<bool>): nat
  {
    if flags == [] then 0 else (if flags[0] then 0 else 1) + CountFalse(flags[1..])
  }

  // ---------------------------------------------------------------------------
  // Grouping

  /** The set of (Season, Week) pairs occurring in the rows. */
  function KeysOf(rows: seq<Record>): set<Key>
  {
    set i | 0 <= i < |rows| :: rows[i].GroupKey()
  }

  /** The rows of one group, in input order. */
  function GroupOf(rows: seq<Record>, k: Key): (group: seq<Record>)
    ensures |group| <= |rows|
    ensures forall i :: 0 <= i < |group| ==> group[i].GroupKey() == k && group[i] in rows
    ensures k in KeysOf(rows) <==> |group| > 0
  {
    if rows == [] then []
    else
      KeysOfCons(rows);
      var rest := GroupOf(rows[1..], k);
      if rows[0].GroupKey() == k then [rows[0]] + rest else rest
  }

  /**
    A group is the filter of the rows on its key: every row with key k occurs
    in the group exactly as often as in the input, and no other row occurs.
   */
  lemma {:induction false} GroupOfComplete(rows: seq<Record>, k: Key)
    ensures forall r :: multiset(GroupOf(rows, k))[r] == if r.GroupKey() == k then multiset(rows)[r] else 0
  {
    if rows != [] {
      GroupOfComplete(rows[1..], k);
      assert rows == [rows[0]] + rows[1..];
    }
  }

  /** The keys of a non-empty row sequence: the first row's key and the rest's. */
  lemma KeysOfCons(rows: seq<Record>)
    requires rows != []
    ensures KeysOf(rows) == {rows[0].GroupKey()} + KeysOf(rows[1..])
  {
    forall x | x in KeysOf(rows) ensures x in {rows[0].GroupKey()} + KeysOf(rows[1..]) {
      var i :| 0 <= i < |rows| && rows[i].GroupKey() == x;
      if i > 0 { assert rows[1..][i - 1] == rows[i]; }
    }
    forall x | x in KeysOf(rows[1..]) ensures x in KeysOf(rows) {
      var i :| 0 <= i < |rows[1..]| && rows[1..][i].GroupKey() == x;
      assert rows[i + 1] == rows[1..][i];
    }
  }

  /** Counts of correct and incorrect flags within a group. */
  function GroupCounts(group: seq<Record>): Counts
  {
    Counts(CountCorrect(group), CountFalse(Flags(group)))
  }

  /** The number of correct records of a group (the sum of its IsCorrect column). */
  function CountCorrect(group: seq<Record>): nat
  {
    CountTrue(Flags(group))
  }

  /**
    Tallies every group in one pass over the rows. The keys are exactly the
    (Season, Week) pairs that occur, and each entry holds the correct/incorrect
    counts of that pair's group.
   */
  function Tally(rows: seq<Record>): (m: map<Key, Counts>)
    ensures forall k | k in m :: m[k] == GroupCounts(GroupOf(rows, k))
    ensures m.Keys == KeysOf(rows)
  {
    if rows == [] then map[]
    else
      var m := Tally(rows[1..]);
      TallyStep(rows, m);
      AddRecord(m, rows[0])
  }

  /** Counts one more record into its group's tallies. */
  function AddRecord(m: map<Key, Counts>, r: Record): map<Key, Counts>
  {
    var k := r.GroupKey();
    var c := if k in m then m[k] else Counts(0, 0);
    m[k := if IsCorrect(r) then Counts(c.correct + 1, c.incorrect) else Counts(c.correct, c.incorrect + 1)]
  }

  /** Tallies of the tail, plus the head record, are the tallies of the whole. */
  lemma TallyStep(rows: seq<Record>, m: map<Key, Counts>)
    requires rows != []
    requires m.Keys == KeysOf(rows[1..])
    requires forall k | k in m :: m[k] == GroupCounts(GroupOf(rows[1..], k))
    ensures AddRecord(m, rows[0]).Keys == KeysOf(rows)
    ensures forall k | k in AddRecord(m, rows[0]) :: AddRecord(m, rows[0])[k] == GroupCounts(GroupOf(rows, k))
  {
    var k := rows[0].GroupKey();
    var m' := AddRecord(m, rows[0]);
    KeysOfCons(rows);
    forall x | x in m' ensures m'[x] == GroupCounts(GroupOf(rows, x)) {
      if x in m {
        TallyStepAt(rows, m, x);
      } else {
        assert GroupOf(rows[1..], x) == [];
        TallyStepAt(rows, m, x);
      }
    }
  }

  /** TallyStep for one key. */
  lemma TallyStepAt(rows: seq<Record>, m: map<Key, Counts>, x: Key)
    requires rows != []
    requires x in m ==> m[x] == GroupCounts(GroupOf(rows[1..], x))
    requires x !in m ==> GroupOf(rows[1..], x) == []
    requires x in AddRecord(m, rows[0])
    ensures AddRecord(m, rows[0])[x] == GroupCounts(GroupOf(rows, x))
  {
    var c := if x in m then m[x] else Counts(0, 0);
    assert c == GroupCounts(GroupOf(rows[1..], x)) by {
      if x !in m { EmptyGroupCounts(); }
    }
    AddRecordAt(m, rows[0], x);
    GroupCountsCons(rows, x);
  }

  /** The empty group has no correct and no incorrect record. */
  lemma EmptyGroupCounts()
    ensures GroupCounts([]) == Counts(0, 0)
  {
    assert Flags([]) == [];
  }

  /** What AddRecord leaves at one key: unchanged for other groups, one more tally for the record's own. */
  lemma AddRecordAt(m: map<Key, Counts>, r: Record, x: Key)
    requires x in AddRecord(m, r)
    ensures var c := if x in m then m[x] else Counts(0, 0);
      AddRecord(m, r)[x] ==
        if r.GroupKey() != x then c
        else if IsCorrect(r) then Counts(c.correct + 1, c.incorrect)
        else Counts(c.correct, c.incorrect + 1)
  {
  }

  /** How prepending a row changes one group's counts. */
  lemma GroupCountsCons(rows: seq<Record>, x: Key)
    requires rows != []
    ensures var before := GroupCounts(GroupOf(rows[1..], x));
      GroupCounts(GroupOf(rows, x)) ==
        if rows[0].GroupKey() != x then before
        else if IsCorrect(rows[0]) then Counts(before.correct + 1, before.incorrect)
        else Counts(before.correct, before.incorrect + 1)
  {
    if rows[0].GroupKey() == x {
      var g := GroupOf(rows, x);
      assert g == [rows[0]] + GroupOf(rows[1..], x);
      assert g[1..] == GroupOf(rows[1..], x);
      assert Flags(g) == [IsCorrect(rows[0])] + Flags(g[1..]);
    }
  }

  /** correct / (correct + incorrect), or 0 when the group is empty. */
  function Accuracy(c: Counts): (a: real)
    ensures 0.0 <= a <= 1.0
    ensures c.Total() > 0 ==> a * (c.Total() as real) == c.correct as real
    ensures c.Total() == 0 ==> a == 0.0
    ensures a == 1.0 <==> c.Total() > 0 && c.incorrect == 0
    ensures a == 0.0 <==> c.correct == 0
  {
    if c.Total() > 0 then (c.correct as real) / (c.Total() as real) else 0.0
  }

  /**
    The accuracy table of already-validated rows: every entry is its group's
    accuracy, and there is one entry per (Season, Week) that occurs.
   */
  function WeeklyAccuracy(rows: seq<Record>): (table: AccuracyTable)
    ensures forall k | k in table :: IsGroupAccuracy(table[k], GroupOf(rows, k))
    ensures table.Keys == KeysOf(rows)
  {
    var m := Tally(rows);
    var table := map k | k in m :: Accuracy(m[k]);
    forall k | k in table ensures IsGroupAccuracy(table[k], GroupOf(rows, k)) {
      GroupAccuracyMeaning(rows, k);
    }
    table
  }

  /**
    What an accuracy entry means for its group: the group is non-empty, the
    accuracy is the number of correct records over the group size, it lies in
    [0, 1], and it is 1 (resp. 0) exactly when every (resp. no) record is correct.
   */
  ghost predicate IsGroupAccuracy(a: real, group: seq<Record>)
  {
    && |group| > 0
    && a == (CountCorrect(group) as real) / (|group| as real)
    && 0.0 <= a <= 1.0
    && (a == 1.0 <==> forall i :: 0 <= i < |group| ==> IsCorrect(group[i]))
    && (a == 0.0 <==> forall i :: 0 <= i < |group| ==> !IsCorrect(group[i]))
  }

  /**
    The whole builder: header check first, then the grouped accuracies. Fails
    exactly when a required header is missing, and then reports exactly the
    missing names.
   */
  function BuildWeeklyAccuracy(columns: seq<string>, rows: seq<Record>): (r: Result<AccuracyTable, AccuracyError>)
    ensures r.Failure? <==> Columns.MissingColumns(columns) != {}
    ensures r.Failure? ==> r.error == MissingColumnsError(Columns.MissingColumns(columns))
    ensures r.Success? ==> r.value.Keys == KeysOf(rows)
    ensures r.Success? ==> forall k | k in r.value :: IsGroupAccuracy(r.value[k], GroupOf(rows, k))
  {
    var missing := Columns.MissingColumns(columns);
    if missing != {} then Failure(MissingColumnsError(missing))
    else
      Success(WeeklyAccuracy(rows))
  }

  // ---------------------------------------------------------------------------
  // Lemmas

  /** Every flag is either true or false: the two counts partition the column. */
  lemma {:induction false} CountsPartition(flags: seq<bool>)
    ensures CountTrue(flags) + CountFalse(flags) == |flags|
  {
    if flags != [] {
      CountsPartition(flags[1..]);
    }
  }

  /** All flags of a group are true exactly when the correct count is the group size. */
  lemma {:induction false} AllCorrectIffFull(group: seq<Record>)
    ensures CountCorrect(group) == |group| <==> forall i :: 0 <= i < |group| ==> IsCorrect(group[i])
  {
    if group != [] {
      AllCorrectIffFull(group[1..]);
      CountBound(group[1..]);
      assert forall i :: 1 <= i < |group| ==> group[i] == group[1..][i - 1];
    }
  }

  /** No flag of a group is true exactly when the correct count is zero. */
  lemma {:induction false} NoneCorrectIffZero(group: seq<Record>)
    ensures CountCorrect(group) == 0 <==> forall i :: 0 <= i < |group| ==> !IsCorrect(group[i])
  {
    if group != [] {
      NoneCorrectIffZero(group[1..]);
      assert forall i :: 1 <= i < |group| ==> group[i] == group[1..][i - 1];
    }
  }

  /** A group never has more correct rows than rows. */
  lemma {:induction false} CountBound(group: seq<Record>)
    ensures CountCorrect(group) <= |group|
  {
    if group != [] {
      CountBound(group[1..]);
    }
  }

  /**
    For every formed group the counts add up to the group size, which is
    positive, so the defensive zero-denominator branch is never taken.
   */
  lemma CountsPartitionGroup(rows: seq<Record>, k: Key)
    requires k in KeysOf(rows)
    ensures k in Tally(rows)
    ensures Tally(rows)[k].correct + Tally(rows)[k].incorrect == |GroupOf(rows, k)|
    ensures Tally(rows)[k].Total() > 0
  {
    CountsPartition(Flags(GroupOf(rows, k)));
  }

  /** The accuracy of an occurring group's tallies is that group's accuracy. */
  lemma GroupAccuracyMeaning(rows: seq<Record>, k: Key)
    requires k in KeysOf(rows)
    ensures k in Tally(rows)
    ensures IsGroupAccuracy(Accuracy(Tally(rows)[k]), GroupOf(rows, k))
  {
    var g := GroupOf(rows, k);
    CountsPartitionGroup(rows, k);
    CountsMeaning(g);
  }

  /** The accuracy of a non-empty group's counts says what the group holds. */
  lemma CountsMeaning(g: seq<Record>)
    requires |g| > 0
    ensures IsGroupAccuracy(Accuracy(GroupCounts(g)), g)
  {
    var c := GroupCounts(g);
    CountsPartition(Flags(g));
    assert c.correct == CountCorrect(g);
    AccuracyOfCounts(c, |g|);
    AllCorrectIffFull(g);
    NoneCorrectIffZero(g);
  }

  /** The accuracy of counts whose total is n > 0, stated against n. */
  lemma AccuracyOfCounts(c: Counts, n: nat)
    requires c.Total() == n > 0
    ensures Accuracy(c) == (c.correct as real) / (n as real)
    ensures Accuracy(c) == 1.0 <==> c.correct == n
    ensures Accuracy(c) == 0.0 <==> c.correct == 0
    ensures 0.0 <= Accuracy(c) <= 1.0
  {
  }
}
