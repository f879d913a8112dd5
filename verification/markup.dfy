/** The inline keyboard offered while the user picks a currency pair.

The menu has two steps. For the parameter `CodeNameA` it offers every source
currency of the rate table; for `CodeNameB` it offers the target currencies
of the rows whose source currency is the one chosen before; for any other
parameter it offers nothing. Each option becomes one button whose label and
callback payload are both the option itself.
 */
module Markup {
  import opened Distinct
  import opened RateTable

  /** The parameter names the menu understands. */
  const ParamCodeNameA := "CodeNameA"
  const ParamCodeNameB := "CodeNameB"

  /** An inline button: the label shown to the user and the payload sent
      back when it is pressed. */
  datatype Button = Button(text: string, callbackData: string)

  /** The keyboard, as the sequence of buttons in the order they were added. */
  type Keyboard = seq<Button>

  /** The labels of a keyboard, button by button. */
  function Labels(keyboard: Keyboard): (labels: seq<string>)
    ensures |labels| == |keyboard|
  {
    seq(|keyboard|, i requires 0 <= i < |keyboard| => keyboard[i].text)
  }

  /** A source currency that occurs in the table. */
  ghost predicate IsSource(rows: Table, o: string) {
    exists row :: row in rows && row.codeNameA == o
  }

  /** A target currency of some row whose source currency is `filterValue`. */
  ghost predicate IsTargetOf(rows: Table, filterValue: Option<string>, o: string) {
    exists row :: row in rows && Matches(row, filterValue) && row.codeNameB == o
  }

  /** The `CodeNameA` column holds exactly the source currencies. */
  lemma ColumnAMembers(rows: Table)
    ensures forall o :: o in ColumnA(rows) <==> IsSource(rows, o)
  {
    var col := ColumnA(rows);
    forall o ensures o in col <==> IsSource(rows, o) {
      if o in col {
        var i :| 0 <= i < |col| && col[i] == o;
        assert rows[i] in rows;
      }
      if IsSource(rows, o) {
        var row :| row in rows && row.codeNameA == o;
        var i :| 0 <= i < |rows| && rows[i] == row;
        assert col[i] == o;
      }
    }
  }

  /** The `CodeNameB` column of the selection holds exactly the targets of
      `filterValue`. */
  lemma ColumnBOfSelectionMembers(rows: Table, filterValue: Option<string>)
    ensures forall o :: o in ColumnB(SelectA(rows, filterValue)) <==> IsTargetOf(rows, filterValue, o)
  {
    var sel := SelectA(rows, filterValue);
    var col := ColumnB(sel);
    forall o ensures o in col <==> IsTargetOf(rows, filterValue, o) {
      if o in col {
        var i :| 0 <= i < |col| && col[i] == o;
        assert sel[i] in sel;
      }
      if IsTargetOf(rows, filterValue, o) {
        var row :| row in rows && Matches(row, filterValue) && row.codeNameB == o;
        var i :| 0 <= i < |sel| && sel[i] == row;
        assert col[i] == o;
      }
    }
  }

  /** The options offered for `paramName`: the distinct source currencies,
      the distinct target currencies of the rows selected by `filterValue`,
      or nothing. */
  function Options(rows: Table, paramName: string, filterValue: Option<string> := None): (options: seq<string>)
    ensures NoDuplicates(options)
    ensures paramName == ParamCodeNameA ==>
              forall o :: o in options <==> IsSource(rows, o)
    ensures paramName == ParamCodeNameB ==>
              forall o :: o in options <==> IsTargetOf(rows, filterValue, o)
    ensures paramName == ParamCodeNameB && (forall row :: row in rows ==> !Matches(row, filterValue)) ==>
              options == []
    ensures paramName != ParamCodeNameA && paramName != ParamCodeNameB ==> options == []
    ensures |options| <= |rows|
    ensures paramName == ParamCodeNameB ==> |options| <= CountMatching(rows, filterValue)
  {
    if paramName == ParamCodeNameA then
      UniqueMembers(ColumnA(rows));
      UniqueNoDuplicates(ColumnA(rows));
      ColumnAMembers(rows);
      Unique(ColumnA(rows))
    else if paramName == ParamCodeNameB then
      UniqueMembers(ColumnB(SelectA(rows, filterValue)));
      UniqueNoDuplicates(ColumnB(SelectA(rows, filterValue)));
      ColumnBOfSelectionMembers(rows, filterValue);
      SelectACount(rows, filterValue);
      Unique(ColumnB(SelectA(rows, filterValue)))
    else
      []
  }

  /** One button per option, in option order, label and payload both equal
      to the option. */
  function Buttons(options: seq<string>): (keyboard: Keyboard)
    ensures Labels(keyboard) == options
    ensures forall b :: b in keyboard ==> b.text == b.callbackData
  {
    seq(|options|, i requires 0 <= i < |options| => Button(options[i], options[i]))
  }

  /** The keyboard returned for `paramName` and the previously chosen
      `filterValue`. */
  function TextButtons(rows: Table, paramName: string, filterValue: Option<string> := None): (keyboard: Keyboard)
    ensures Labels(keyboard) == Options(rows, paramName, filterValue)
    ensures forall b :: b in keyboard ==> b.text == b.callbackData
    ensures NoDuplicates(keyboard)
    ensures |keyboard| <= |rows|
    ensures paramName == ParamCodeNameB ==> |keyboard| <= CountMatching(rows, filterValue)
    ensures paramName == ParamCodeNameB && (forall row :: row in rows ==> !Matches(row, filterValue)) ==>
              keyboard == []
    ensures paramName == ParamCodeNameB && filterValue.None? ==> keyboard == []
    ensures paramName == ParamCodeNameA ==>
              forall o :: Button(o, o) in keyboard <==> IsSource(rows, o)
    ensures paramName == ParamCodeNameB ==>
              forall o :: Button(o, o) in keyboard <==> IsTargetOf(rows, filterValue, o)
    ensures paramName != ParamCodeNameA && paramName != ParamCodeNameB ==> keyboard == []
  {
    Buttons(Options(rows, paramName, filterValue))
  }

  /** The procedure as written: derive the options (with a scan of the
      column), then add one button per option to an empty keyboard. */
  method GetTextButtons(rows: Table, paramName: string, filterValue: Option<string> := None)
    returns (keyboard: Keyboard)
    ensures keyboard == TextButtons(rows, paramName, filterValue)
  {
    var options: seq<string>;
    if paramName == ParamCodeNameA {
      options := UniqueScan(ColumnA(rows));
    } else if paramName == ParamCodeNameB {
      var selected := SelectA(rows, filterValue);
      options := UniqueScan(ColumnB(selected));
    } else {
      options := [];
    }
    keyboard := [];
    for i := 0 to |options|
      invariant |keyboard| == i
      invariant forall k :: 0 <= k < i ==> keyboard[k] == Button(options[k], options[k])
    {
      keyboard := keyboard + [Button(options[i], options[i])];
    }
  }

  /** Source currencies are offered in the order in which they first occur
      in the table. */
  lemma SourceOptionsOrder(rows: Table, filterValue: Option<string>)
    ensures forall o :: o in Options(rows, ParamCodeNameA, filterValue) ==> o in ColumnA(rows)
    ensures forall i, j :: 0 <= i < j < |Options(rows, ParamCodeNameA, filterValue)| ==>
              FirstIndex(ColumnA(rows), Options(rows, ParamCodeNameA, filterValue)[i])
              < FirstIndex(ColumnA(rows), Options(rows, ParamCodeNameA, filterValue)[j])
  {
    UniqueFirstAppearanceOrder(ColumnA(rows));
  }

  /** Target currencies are offered in the order in which they first occur
      among the rows whose source currency is `filterValue`. */
  lemma TargetOptionsOrder(rows: Table, filterValue: Option<string>)
    ensures forall o :: o in Options(rows, ParamCodeNameB, filterValue) ==>
              o in ColumnB(SelectA(rows, filterValue))
    ensures forall i, j :: 0 <= i < j < |Options(rows, ParamCodeNameB, filterValue)| ==>
              FirstIndex(ColumnB(SelectA(rows, filterValue)), Options(rows, ParamCodeNameB, filterValue)[i])
              < FirstIndex(ColumnB(SelectA(rows, filterValue)), Options(rows, ParamCodeNameB, filterValue)[j])
  {
    UniqueFirstAppearanceOrder(ColumnB(SelectA(rows, filterValue)));
  }

  /** The two steps fit together: the target menu for `source` has at least
      one button exactly when `source` is offered in the source menu. */
  lemma TargetMenuNonEmptyIffSourceOffered(rows: Table, source: string, anyFilter: Option<string>)
    ensures TextButtons(rows, ParamCodeNameB, Some(source)) != [] <==>
            Button(source, source) in TextButtons(rows, ParamCodeNameA, anyFilter)
  {
    var targets := TextButtons(rows, ParamCodeNameB, Some(source));
    if Button(source, source) in TextButtons(rows, ParamCodeNameA, anyFilter) {
      var row :| row in rows && row.codeNameA == source;
      assert Button(row.codeNameB, row.codeNameB) in targets;
    }
    if targets != [] {
      var o := targets[0].text;
      assert targets[0] == Button(o, o);
      assert IsTargetOf(rows, Some(source), o);
    }
  }
}
