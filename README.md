# Validating table-cell editor: a Dafny model

This project models the commit, validate and feedback cycle of a Swing table-cell
editor built from three classes stacked by inheritance:

- `GenericEditor` runs one edit session. Beginning an edit clears `value` and sets the
  border to normal. It then picks the single-`String`-argument constructor of the column
  class; a column declared `Object` is edited through `String`. Committing converts the
  text with that constructor, except that empty text is never converted. Any failure
  turns the border red and refuses the commit. `getCellEditorValue` returns `value`.
- `ValidatingCellEditor` runs the generic commit first. Only when that succeeds does it
  run the domain check `performValidation` on `value`. A failed check turns the border
  red, notifies every registered `CellValidationErrorListener` once, in registration
  order, and refuses the commit. The class also keeps the ordered listener list and a
  `numeric` flag that decides the text alignment: right, or the leading default.
- `IntegerEditor` turns `numeric` on in its constructor. Its conversion is
  `Integer.valueOf`, the decimal parse of `Integer.parseInt`: an optional sign, one or
  more digits, and a value in -2147483648..2147483647.

Files and modules:

- `wrappers.dfy` (`Wrappers`): `Option`, where `None` stands for Java's `null`.
- `java_int.dfy` (`JavaInt`): `ParseInt`, the `Integer.parseInt` parse as a recursive
  function over the digit string. Lemmas cover exactly which texts it accepts, the round
  trip with `Integer.toString`, and leading zeros.
- `reflection.dfy` (`Reflection`): column classes, value objects and constructor lookup.
  The constructors of `String` and `Integer` are interpreted. Those of every other class
  are left abstract in a `Runtime` value.
- `generic_editor.dfy` (`Generic`): the class `GenericEditor`. It holds the `constructor`
  and `value` fields and the text field's text, border and alignment. `CommitValue` is
  the pure specification of what a commit does to `value`.
- `validating_cell_editor.dfy` (`Validating`): the class `ValidatingCellEditor`, and
  `RemoveFirst` for `ArrayList.remove(Object)`. A ghost log `notified` records every
  `validationFailed` call.
- `integer_editor.dfy` (`IntegerEditing`): the class `IntegerEditor`, and five verified
  client sessions. `EvenNumberCommits` and `OddNumberRefused` use an even-number rule.
  `RetryKeepsErrorBorder` shows that a successful retry keeps the red border.
  `ParseFailureSession` shows that parse failures notify no listener. `LastSetNumericWins`
  shows that only the last `setNumeric` call matters.

Java inheritance is modelled by composition. Each class holds its parent part in a
`const base` field, and inherited methods forward to it. The abstract `performValidation`
is a function value given at construction. Listeners are opaque ids (`nat`); equal ids
are equal listeners, as `ArrayList.remove` compares with `equals`.

The code, not the class comments, decides the model:

- `IntegerEditor.updateValue` is declared `@Override`, but `GenericEditor` has no such
  method and nothing calls it. A commit converts through `constructor.newInstance`. It is
  modelled as written (`IntegerEditing.IntegerEditor.UpdateValue`). On an `Integer` column
  the commit's own conversion is `Integer(String)`, which parses the same way
  (`Generic.IntegerColumnParses`).
- Empty text on a column that is not `String` leaves `value` as it was
  (`GenericEditor.java:60-64`). The comment above it says null is returned, but `value` is
  null only if nothing assigned it since the edit began. So validation can then run on
  null, or on a value that an earlier commit of the same session stored.
- A value that the domain check refused stays in `value`, and `getCellEditorValue`
  returns it.
- A failed conversion turns the border red but notifies no listener. Only a failed
  domain check notifies.
- A successful commit does not reset a red border. Only beginning the next edit does.
- The listener loop has no `try`/`catch`, so nothing contains a throwing listener.
- Listeners may be registered twice. One removal then leaves the second registration in
  place, and that registration is still notified.

## Model

| member | source | states |
|---|---|---|
| `JavaInt.ParseInt` | src/com/gmail/at/kevinburnseit/swing/util/table/IntegerEditor.java:24 | any parsed number lies in the 32-bit range -2147483648..2147483647 |
| `JavaInt.ParseIntAccepts` | src/com/gmail/at/kevinburnseit/swing/util/table/IntegerEditor.java:24 | an optional '+' or '-', then one or more digits whose signed value is in range, parses to that value |
| `JavaInt.ParseIntRejectsOutOfRange` | src/com/gmail/at/kevinburnseit/swing/util/table/IntegerEditor.java:24 | a well-formed numeral whose value is outside the 32-bit range throws |
| `JavaInt.ParseIntRejectsNoDigits` | src/com/gmail/at/kevinburnseit/swing/util/table/IntegerEditor.java:24 | empty text, a lone '+' and a lone '-' throw |
| `JavaInt.ParseIntRejectsNonDigit` | src/com/gmail/at/kevinburnseit/swing/util/table/IntegerEditor.java:24 | any non-digit (space, decimal point, letter, inner sign) outside the leading sign position makes the parse throw; with the two lemmas above, parse succeeds exactly on optional sign, digits, in range |
| `JavaInt.ParseIntToDecimal` | src/com/gmail/at/kevinburnseit/swing/util/table/IntegerEditor.java:24 | round trip: every 32-bit n parses back from its decimal text to n |
| `JavaInt.LeadingZerosIgnored` | src/com/gmail/at/kevinburnseit/swing/util/table/IntegerEditor.java:24 | zeros inserted after the optional sign never change the outcome of the parse |
| `JavaInt.LeadingZerosExample` | src/com/gmail/at/kevinburnseit/swing/util/table/IntegerEditor.java:24 | "007" parses to 7 |
| `JavaInt.NegativeZeroExample` | src/com/gmail/at/kevinburnseit/swing/util/table/IntegerEditor.java:24 | "-0" parses to 0 |
| `Reflection.LookupConstructor` | src/com/gmail/at/kevinburnseit/swing/util/table/GenericEditor.java:83-97 | a column of `Object` uses `String`'s constructor; any other column uses its own class's constructor, and there is none exactly when that class has no usable `(String)` constructor |
| `Reflection.NewInstance` | src/com/gmail/at/kevinburnseit/swing/util/table/GenericEditor.java:68 | what a constructor builds is an instance of the constructor's class |
| `Reflection.ConstructedIsAssignable` | src/com/gmail/at/kevinburnseit/swing/util/table/GenericEditor.java:84-90 | what the looked-up constructor builds is assignable to the declared column class, `Object` columns included |
| `Generic.EmptyTextNotConverted` | src/com/gmail/at/kevinburnseit/swing/util/table/GenericEditor.java:59-65 | with a constructor chosen, empty text never fails: a `String` column stores "", any other column keeps its value |
| `Generic.StringColumnStoresText` | src/com/gmail/at/kevinburnseit/swing/util/table/GenericEditor.java:59-68 | on a `String` column every text commits and the stored value is that text |
| `Generic.IntegerColumnParses` | src/com/gmail/at/kevinburnseit/swing/util/table/GenericEditor.java:67-73 | on an `Integer` column non-empty text commits iff `Integer.parseInt` accepts it, storing the parsed number |
| `Generic.NullConstructorFails` | src/com/gmail/at/kevinburnseit/swing/util/table/GenericEditor.java:59-73 | with a null constructor every commit fails (the `NullPointerException` is caught) |
| `Generic.CommitStoresAssignable` | src/com/gmail/at/kevinburnseit/swing/util/table/GenericEditor.java:59-93 | a commit on a column only stores values assignable to the column's declared class |
| `Generic.GenericEditor.constructor` | src/com/gmail/at/kevinburnseit/swing/util/table/GenericEditor.java:46-49 | a new editor has a null constructor and value, empty text, the field's own border and leading alignment |
| `Generic.GenericEditor.GetTableCellEditorComponent` | src/com/gmail/at/kevinburnseit/swing/util/table/GenericEditor.java:77-99 | value becomes null and the border normal, whatever came before; returns null exactly when no usable constructor exists, and then keeps the old constructor; otherwise picks it and shows the cell text |
| `Generic.GenericEditor.StopCellEditing` | src/com/gmail/at/kevinburnseit/swing/util/table/GenericEditor.java:51-75 | a failed conversion sets the error border, returns false and keeps value; otherwise value is what `CommitValue` stores and the host editor's result is returned; constructor and text unchanged |
| `Generic.GenericEditor.GetCellEditorValue` | src/com/gmail/at/kevinburnseit/swing/util/table/GenericEditor.java:101-103 | returns exactly the value field |
| `Validating.RemoveFirst` | src/com/gmail/at/kevinburnseit/swing/util/table/ValidatingCellEditor.java:75-77 | an absent listener leaves the list unchanged; a present one makes the list one shorter |
| `Validating.RemoveFirstAt` | src/com/gmail/at/kevinburnseit/swing/util/table/ValidatingCellEditor.java:75-77 | a present listener is removed at its first index only, the entries before and after it kept in order |
| `Validating.RemoveFirstCounts` | src/com/gmail/at/kevinburnseit/swing/util/table/ValidatingCellEditor.java:75-77 | removal takes away exactly one registration of a present listener and no other entry |
| `Validating.RemoveSingleRegistration` | src/com/gmail/at/kevinburnseit/swing/util/table/ValidatingCellEditor.java:75-77 | a listener registered once is no longer in the list after its removal |
| `Validating.AddThenRemove` | src/com/gmail/at/kevinburnseit/swing/util/table/ValidatingCellEditor.java:67-77 | adding an absent listener and removing it restores the list |
| `Validating.ValidatingCellEditor.constructor` | src/com/gmail/at/kevinburnseit/swing/util/table/ValidatingCellEditor.java:53-61 | a new editor has no listeners, is not numeric, is leading-aligned and has notified nobody |
| `Validating.ValidatingCellEditor.AddValidationErrorListener` | src/com/gmail/at/kevinburnseit/swing/util/table/ValidatingCellEditor.java:67-69 | appends the listener at the end, duplicates allowed, nothing else changes |
| `Validating.ValidatingCellEditor.RemoveValidationErrorListener` | src/com/gmail/at/kevinburnseit/swing/util/table/ValidatingCellEditor.java:75-77 | the list becomes `RemoveFirst` of the old list, nothing else changes |
| `Validating.ValidatingCellEditor.FireValidationFailed` | src/com/gmail/at/kevinburnseit/swing/util/table/ValidatingCellEditor.java:92-96 | every listener in the list is notified exactly once, in list order |
| `Validating.ValidatingCellEditor.SetCellBorder` | src/com/gmail/at/kevinburnseit/swing/util/table/ValidatingCellEditor.java:108-110 | sets the border and nothing else |
| `Validating.ValidatingCellEditor.SetHorizontalAlignment` | src/com/gmail/at/kevinburnseit/swing/util/table/ValidatingCellEditor.java:115-117 | sets the alignment and nothing else |
| `Validating.ValidatingCellEditor.IsNumeric` | src/com/gmail/at/kevinburnseit/swing/util/table/ValidatingCellEditor.java:123-125 | returns the numeric flag |
| `Validating.ValidatingCellEditor.SetNumeric` | src/com/gmail/at/kevinburnseit/swing/util/table/ValidatingCellEditor.java:133-139 | the flag becomes b and the alignment right if b, else leading, whatever came before (so the last call decides); listeners, value and border unchanged |
| `Validating.ValidatingCellEditor.GetTableCellEditorComponent` | src/com/gmail/at/kevinburnseit/swing/util/table/GenericEditor.java:77-99 | the inherited session start: value null, border normal, constructor chosen as in `GenericEditor`; alignment still follows the numeric flag |
| `Validating.ValidatingCellEditor.GetCellEditorValue` | src/com/gmail/at/kevinburnseit/swing/util/table/GenericEditor.java:101-103 | returns the value field, even after a commit the domain check refused |
| `Validating.ValidatingCellEditor.StopCellEditing` | src/com/gmail/at/kevinburnseit/swing/util/table/ValidatingCellEditor.java:79-96 | a failed parent commit returns false and notifies nobody; a failed domain check sets the error border, notifies each listener once in list order and returns false; a passed check returns true, notifies nobody and keeps the border; listeners and numeric flag never change |
| `IntegerEditing.IntegerEditor.constructor` | src/com/gmail/at/kevinburnseit/swing/util/table/IntegerEditor.java:15-20 | a new integer editor is numeric and right-aligned, has no listeners, and keeps the given domain check unchanged |
| `IntegerEditing.IntegerEditor.UpdateValue` | src/com/gmail/at/kevinburnseit/swing/util/table/IntegerEditor.java:22-25 | succeeds exactly when `Integer.parseInt` accepts the text and then stores the parsed number; on failure value is unchanged |

## Left out

- `DoubleEditor`: its only logic is `Double.valueOf`, a floating-point parse. Its
  constructor does the same as `IntegerEditor`'s.
- `CellValidationErrorListener`: an interface with one method and no behaviour.
  Listeners are ids, and their calls are recorded in the ghost log `notified`. Listeners
  are assumed not to throw, not to call back into the editor, and to have no effect the
  editor can see.
- `performValidation` is modelled as a side-effect-free function of the value that
  never throws. In Java it is called outside any `try` (`ValidatingCellEditor.java:83`).
  An exception from it leaves `stopCellEditing` with neither the error border nor a
  notification, after the host's stop has already run. A check such as
  `((Integer) v) >= 0` throws this way on the null that an empty commit can leave.
- Reflection is abstracted. `ReflectUtil.checkPackageAccess`, `SwingUtilities2.checkAccess`
  and `getConstructor` together become one predicate, "usable `(String)` constructor".
  Constructors of classes other than `String` and `Integer` are an uninterpreted partial
  function in `Runtime`.
- The access check at `GenericEditor.java:67` is not modelled separately.
  `getConstructor` only returns public constructors, so that check passes. Any other
  failure is folded into `NewInstance` returning `None`.
- The Swing host is not modelled. That covers `JTable.getColumnClass`, `DefaultCellEditor`
  (its stop, its cancel, its editor component) and its `editingStopped` events.
  - The host editor's stop result is the parameter `hostStop`. The host's stop is
    assumed not to throw. In Java an exception from it is caught on empty text, where the
    call is inside the `try` (`GenericEditor.java:64`): error border, `false`. After a
    conversion the call is outside the `try` (`GenericEditor.java:74`), and the
    exception propagates.
  - The cell's displayed text is the parameter `cellText`.
  - The user's typing is `GenericEditor.SetText`.
  - The host's stop, which runs before the domain check, also tells the table to store
    the value and remove the editor. That event is not modelled.
- Swing's border objects and colours become `Border` (`LookAndFeel`, `Normal`, `Error`),
  and `JTextField` alignment constants become `Alignment`.
- The static `defaultHorizontalAlignment` is never reassigned, so it is the constant
  `Leading`.
- `JavaInt.ParseInt`: accepts ASCII digits only. Java's parse also accepts other Unicode
  decimal digits.
- `serialVersionUID`, `setName("Table.editor")` and UI-thread dispatch are not modelled.
