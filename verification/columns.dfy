/**
  Header handling of the weekly-accuracy builder: the localized CSV headers are
  renamed to canonical names through a fixed map, and the four canonical names
  the aggregation needs must all be present afterwards.
 */
module Columns {

  const Season := "Season"
  const Week := "Week"
  const PredictedElim := "PredictedElim"
  const ActualElim := "ActualElim"

  /** The fixed header renaming: localized label -> canonical name. */
  const RenameMap: map<string, string> := map[
    "赛季" := Season,
    "周数" := Week,
    "预测淘汰" := PredictedElim,
    "实际淘汰" := ActualElim
  ]

  /** The canonical columns the aggregation reads. */
  const Required: set<string> := {Season, Week, PredictedElim, ActualElim}

  /** The localized label that the rename map sends to a required name. */
  function LocalLabel(name: string): (local: string)
    requires name in Required
    ensures local in RenameMap && RenameMap[local] == name
  {
    if name == Season then "赛季"
    else if name == Week then "周数"
    else if name == PredictedElim then "预测淘汰"
    else "实际淘汰"
  }

  /** The new name of one header: mapped when it is a key of the map, kept otherwise. */
  function RenameOne(column: string): string
  {
    if column in RenameMap then RenameMap[column] else column
  }

  /** Renames every header, position by position. */
  function Rename(columns: seq<string>): (renamed: seq<string>)
    ensures |renamed| == |columns|
    ensures forall i :: 0 <= i < |columns| && columns[i] !in RenameMap ==> renamed[i] == columns[i]
    ensures forall i :: 0 <= i < |columns| && columns[i] in RenameMap ==> renamed[i] in Required
    ensures forall i, name :: 0 <= i < |columns| && name in Required ==>
      (renamed[i] == name <==> columns[i] == name || columns[i] == LocalLabel(name))
  {
    seq(|columns|, i requires 0 <= i < |columns| => RenameOne(columns[i]))
  }

  /**
    The required names absent after renaming. A required name is missing exactly
    when the original headers hold neither the name itself nor its localized label.
   */
  function MissingColumns(columns: seq<string>): (missing: set<string>)
    ensures missing <= Required
    ensures forall name :: name in missing <==>
      name in Required && name !in columns && LocalLabel(name) !in columns
  {
    var renamed := Rename(columns);
    forall name | name in Required
      ensures name in renamed <==> name in columns || LocalLabel(name) in columns
    {
      RenamedToRequired(columns, name);
    }
    Required - set c | c in renamed
  }

  /** A header is renamed to a required name exactly when it is that name or its label. */
  lemma RenamedToRequired(columns: seq<string>, name: string)
    requires name in Required
    ensures name in Rename(columns) <==> name in columns || LocalLabel(name) in columns
  {
    var renamed := Rename(columns);
    if name in renamed {
      var i :| 0 <= i < |renamed| && renamed[i] == name;
      assert RenameOne(columns[i]) == name;
    }
    if name in columns {
      var i :| 0 <= i < |columns| && columns[i] == name;
      assert columns[i] !in RenameMap;
      assert renamed[i] == name;
    }
    if LocalLabel(name) in columns {
      var i :| 0 <= i < |columns| && columns[i] == LocalLabel(name);
      assert renamed[i] == name;
    }
  }

  /**
    Headers already in canonical form pass the check unchanged: when no header
    is a localized label and all four required names are present, the rename
    is the identity and nothing is missing.
   */
  lemma CanonicalHeadersPass(columns: seq<string>)
    requires forall c | c in columns :: c !in RenameMap
    requires Required <= set c | c in columns
    ensures Rename(columns) == columns
    ensures MissingColumns(columns) == {}
  {
    forall name | name in Required ensures name in columns {
      assert name in set c | c in columns;
    }
  }

  /** Dropping the localized "actual elimination" header reports exactly that one name. */
  lemma MissingActualReported()
    ensures MissingColumns(["赛季", "周数", "预测淘汰"]) == {ActualElim}
  {
    var cs := ["赛季", "周数", "预测淘汰"];
    assert LocalLabel(Season) in cs && LocalLabel(Week) in cs && LocalLabel(PredictedElim) in cs;
    assert ActualElim !in cs && LocalLabel(ActualElim) !in cs;
  }
}
