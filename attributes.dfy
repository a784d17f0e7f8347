/** The two pure helpers of the trait that work on attribute and column
    names. */
module Attributes {

  /** hasChanges: with no attribute names given, whether anything changed at
      all; otherwise whether one of the named attributes is a key of the
      changed data. */
  method HasChanges(changes: set<string>, attributes: seq<string>) returns (changed: bool)
    ensures |attributes| == 0 ==> (changed <==> changes != {})
    ensures |attributes| > 0 ==> (changed <==> exists i :: 0 <= i < |attributes| && attributes[i] in changes)
  {
    if |attributes| == 0 {
      return |changes| > 0;
    }
    var i := 0;
    while i < |attributes|
      invariant 0 <= i <= |attributes|
      invariant forall j :: 0 <= j < i ==> attributes[j] !in changes
    {
      if attributes[i] in changes {
        return true;
      }
      i := i + 1;
    }
    return false;
  }

  /** qualifyColumn: a column name already holding a dot is kept, any other
      is prefixed with the table name and a dot. */
  function QualifyColumn(table: string, column: string): (qualified: string)
    ensures '.' in qualified
    ensures |column| <= |qualified| && qualified[|qualified| - |column|..] == column
    ensures '.' in column <==> qualified == column
  {
    if '.' in column then column
    else
      var q := table + "." + column;
      assert q[|table|] == '.';
      assert q[|q| - |column|..] == column;
      q
  }

  /** Qualifying twice, under any table names, is qualifying once. */
  lemma {:induction false} QualifyColumnIdempotent(table: string, other: string, column: string)
    ensures QualifyColumn(other, QualifyColumn(table, column)) == QualifyColumn(table, column)
  {
  }
}
