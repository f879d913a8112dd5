# Currency-converter option menu, in Dafny

This project models the option menu of a chat-driven currency converter: the
function `get_text_buttons` in `process/markup.py`, which turns the
rate table into the inline keyboard a user picks currencies from.

- For the parameter `CodeNameA` the menu offers the distinct source
  currencies of the table.
- For `CodeNameB` it offers the distinct target currencies of the rows whose
  source currency equals the value chosen in the previous step
  (`filter_value`, which defaults to `None`).
- For any other parameter it offers nothing.
- Each option becomes one button whose label and callback payload are both
  the option.

The rate table is an immutable `seq<RateRow>`. A row carries only the `CodeNameA` and `CodeNameB` columns, the two the menu reads. `filter_value` is an
`Option<string>` whose default is `None`, as in the Python signature. The keyboard is the sequence of `(text, callbackData)`
buttons in the order they were added.

Two library behaviours are modelled explicitly:

- Column `unique()` returns the distinct values in order of first
  appearance. `Distinct.Unique` is the declarative definition.
  `Distinct.UniqueScan` is the one-pass seen-set scan that produces it.
- The mask `rate_data['CodeNameA'] == filter_value` compares each row
  element by element. A comparison against `None` is false for every string,
  so `None` selects no rows (`RateTable.Matches`).

Modules:

- `Distinct` (`distinct.dfy`): distinct values in order of first appearance.
- `RateTable` (`rate_table.dfy`): rows, column projection and row selection.
- `Markup` (`markup.dfy`): options, buttons and the keyboard.

## Model

| member | source | states |
|---|---|---|
| Distinct.Unique | process/markup.py:18 | Models `unique().tolist()` as used on lines 18 and 21. Its own contract states only that there are never more distinct values than column entries. Membership, absence of duplicates and first-appearance order are stated by the `UniqueMembers`, `UniqueNoDuplicates` and `UniqueFirstAppearanceOrder` rows, and `UniqueIsDetermined` shows that they determine the result. |
| Distinct.UniqueMembers | process/markup.py:18 | A value is among the distinct values exactly when it occurs in the column. |
| Distinct.UniqueNoDuplicates | process/markup.py:18 | No value is listed twice among the distinct values. |
| Distinct.UniqueFirstAppearanceOrder | process/markup.py:18-21 | Distinct values are listed in order of their first occurrence in the column. |
| Distinct.UniqueIsDetermined | process/markup.py:18-21 | Any duplicate-free sequence with the column's values, in first-occurrence order, equals `Unique`. The three properties therefore define `unique()` completely. |
| Distinct.UniqueOfDistinct | process/markup.py:18 | A column that already has no duplicates is returned unchanged. |
| Distinct.UniqueIdempotent | process/markup.py:18 | Taking the distinct values of the distinct values changes nothing. |
| Distinct.UniqueScan | process/markup.py:18 | A single left-to-right scan that remembers the values already seen yields exactly `Unique`. |
| RateTable.ColumnA | process/markup.py:18 | Models the column access `rate_data['CodeNameA']`: one entry per row. The values it holds are stated by `Markup.ColumnAMembers`. |
| RateTable.ColumnB | process/markup.py:21 | Models the column access `['CodeNameB']` on the selected rows: one entry per row. The values it holds are stated by `Markup.ColumnBOfSelectionMembers`. |
| Markup.ColumnAMembers | process/markup.py:18 | A string occurs in the `CodeNameA` column exactly when some row has it as its source currency. |
| Markup.ColumnBOfSelectionMembers | process/markup.py:20-21 | A string occurs in the `CodeNameB` column of the selection exactly when some row matching the filter value has it as its target currency. |
| RateTable.SelectA | process/markup.py:20 | The selection holds exactly the rows that pass the mask `RateTable.Matches`, which is the element-wise `CodeNameA == filter_value` test and is false for every row when the filter value is `None`. It is never longer than the table. It is empty exactly when no row matches, and so always for `None`. |
| RateTable.SelectACount | process/markup.py:20 | The selection has one row per matching row of the table. |
| RateTable.SelectAConcat | process/markup.py:20 | Selecting from two consecutive parts of a table and concatenating the results gives the selection from the whole table, so table order is kept. |
| Markup.Options | process/markup.py:17-23 | For `CodeNameA`, an option is exactly a source currency of some row. For `CodeNameB`, an option is exactly a target currency of a row whose source equals the filter value. Options are duplicate-free in both branches. When no row matches the filter there are none. Any other parameter yields none. There are never more options than rows, nor than matching rows for `CodeNameB`. |
| Markup.Buttons | process/markup.py:25-27 | The labels of the keyboard are the options, one per option and in option order. Every button's callback payload equals its label. |
| Markup.TextButtons | process/markup.py:7-29 | The button labels are the options, so they are duplicate-free, and each payload equals its label. `Button(o, o)` is present exactly when `o` is a source currency (`CodeNameA`) or a target of the chosen source (`CodeNameB`). The keyboard is empty for `None`, for no matching row and for any other parameter. Its size is bounded by the rows and by the matching rows. |
| Markup.GetTextButtons | process/markup.py:15-29 | Starting from an empty keyboard and adding one button per option, after deriving the options by a column scan, yields `TextButtons`. |
| Markup.SourceOptionsOrder | process/markup.py:17-18 | Source currencies are offered in the order they first occur in the `CodeNameA` column. |
| Markup.TargetOptionsOrder | process/markup.py:19-21 | Target currencies are offered in the order they first occur among the rows selected by the filter value. |
| Markup.TargetMenuNonEmptyIffSourceOffered | process/markup.py:17-21 | The target menu for a currency has at least one button exactly when that currency has a button in the source menu. |

## Left out

- Bot construction, polling and the message handlers (`main.py`, `process/handlers.py`): these are I/O against the chat service. The handlers only send fixed text or echo the message.
- Configuration loading (`get_config` in `main.py`): file-system checks and an INI reader, with no decision logic beyond two error messages.
- Keyboard layout (`row_width=2` and how `add` arranges buttons into rows): this belongs to the chat library. The keyboard is modelled as the flat sequence of buttons in the order they are added.
- Table columns other than `CodeNameA` and `CodeNameB`: the menu never reads them, so a row carries only those two.
- DataFrame internals: only the column projection, the equality mask and `unique()` are modelled. Cells are strings. Missing values (NaN/`None` inside a column) and non-string `filter_value`s are not modelled.
- Everything outside `process/markup.py`'s menu builder: `process/handlers.py` only sends a fixed greeting, a fixed help text or an echo of the message, and does not call `get_text_buttons`. `main.py`, `process/handlers.py` and `process/markup.py` contain no rate fetching, retries, refresh policy, rate storage, conversion arithmetic, per-user conversation state or history log, so none of these is modelled.
