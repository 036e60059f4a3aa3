/**
 * `IntegerEditor`: a validating editor for whole numbers. Its constructor marks the
 * editor numeric (right-aligned); its domain check is left to a further subclass,
 * here the `validation` argument.
 *
 * The class declares `updateValue(String)` as an override, but the `GenericEditor`
 * it builds on has no such method and nothing calls it: a commit converts through
 * the column class's `(String)` constructor instead. On an `Integer` column that is
 * `Integer(String)`, the same parse as `Integer.valueOf` (see
 * `Generic.IntegerColumnParses`), so both routes store the same number.
 */
module IntegerEditing {
  import opened Wrappers
  import opened JavaInt
  import opened Reflection
  import opened Generic
  import opened Validating

  class IntegerEditor {
    const base: ValidatingCellEditor

    ghost predicate Valid()
      reads this, base, base.base
    {
      base.Valid()
    }

    constructor (rt: Runtime, validation: Option<Obj> -> bool)
      ensures Valid() && fresh(base) && fresh(base.base)
      ensures base.numeric && base.base.alignment == Right
      ensures base.performValidation == validation && base.base.runtime == rt
      ensures base.errorListeners == [] && base.notified == []
      ensures base.base.ctor == None && base.base.value == None
      ensures base.base.text == "" && base.base.border == LookAndFeel
    {
      var b := new ValidatingCellEditor(rt, validation);
      b.SetNumeric(true);
      base := b;
    }

    /**
     * `updateValue`: `value = Integer.valueOf(txt)`. `ok` is false where Java throws
     * `NumberFormatException`, and then `value` is untouched.
     */
    method UpdateValue(txt: string) returns (ok: bool)
      modifies base.base
      ensures ok <==> ParseInt(txt).Some?
      ensures ok ==> base.base.value == Some(Integer(ParseInt(txt).value))
      ensures !ok ==> base.base.value == old(base.base.value)
      ensures base.base.ctor == old(base.base.ctor) && base.base.text == old(base.base.text)
      ensures base.base.border == old(base.base.border) && base.base.alignment == old(base.base.alignment)
    {
      var n := ParseInt(txt);
      if n.None? {
        return false;
      }
      base.base.value := Some(Integer(n.value));
      return true;
    }
  }

  /** The domain rule of the two sessions below: the value is an even integer. */
  predicate IsEven(v: Option<Obj>) {
    v.Some? && v.value.Integer? && v.value.n % 2 == 0
  }

  /** An accepted commit: "4" on an `Integer` column passes the rule and is stored. */
  method EvenNumberCommits(rt: Runtime)
  {
    var e := new IntegerEditor(rt, IsEven);
    var cell := e.base;
    cell.AddValidationErrorListener(7);
    var shown := cell.GetTableCellEditorComponent(IntegerClass, "4");
    SingleDigitParses('4');
    var ok := cell.StopCellEditing(true);
    assert ok && cell.notified == [];
    var v := cell.GetCellEditorValue();
    assert v == Some(Integer(4));
  }

  /**
   * A refused commit: "5" fails the rule, turns the border red and notifies the
   * listener once, yet stays readable as the editor value.
   */
  method OddNumberRefused(rt: Runtime)
  {
    var e := new IntegerEditor(rt, IsEven);
    var cell := e.base;
    cell.AddValidationErrorListener(7);
    var shown := cell.GetTableCellEditorComponent(IntegerClass, "5");
    SingleDigitParses('5');
    var ok := cell.StopCellEditing(true);
    assert !ok && cell.base.border == Error && cell.notified == [7];
    var v := cell.GetCellEditorValue();
    assert v == Some(Integer(5));
  }

  /**
   * A retry after a refused commit: "x" does not parse and turns the border red;
   * typing "6" then commits, but the border stays red. Only beginning the next edit
   * resets it.
   */
  method RetryKeepsErrorBorder(rt: Runtime)
  {
    var e := new IntegerEditor(rt, IsEven);
    var cell := e.base;
    var shown := cell.GetTableCellEditorComponent(IntegerClass, "x");
    ParseIntRejectsNonDigit("x", 0);
    var ok := cell.StopCellEditing(true);
    assert !ok && cell.base.border == Error;

    cell.base.SetText("6");
    SingleDigitParses('6');
    ok := cell.StopCellEditing(true);
    assert ok && cell.base.border == Error;

    shown := cell.GetTableCellEditorComponent(IntegerClass, "6");
    assert cell.base.border == Normal;
  }

  /**
   * Text that does not parse is refused with the error border, but, unlike a failed
   * domain check, nobody is notified. Empty text on the same column is not
   * converted: the generic commit succeeds with `value` still null, and the domain
   * check then runs on null.
   */
  method ParseFailureSession(rt: Runtime)
  {
    var e := new IntegerEditor(rt, (v: Option<Obj>) => v.Some?);
    var cell := e.base;
    cell.AddValidationErrorListener(1);
    var shown := cell.GetTableCellEditorComponent(IntegerClass, "12a");
    ParseIntRejectsNonDigit("12a", 2);
    var ok := cell.StopCellEditing(true);
    assert !ok && cell.base.border == Error && cell.notified == [];

    cell.base.SetText("");
    ok := cell.StopCellEditing(true);
    assert !ok && cell.base.value == None && cell.notified == [1];
  }

  /** `setNumeric(true)` then `setNumeric(false)` leaves the leading default alignment. */
  method LastSetNumericWins(rt: Runtime)
  {
    var e := new IntegerEditor(rt, (v: Option<Obj>) => true);
    var cell := e.base;
    cell.SetNumeric(true);
    cell.SetNumeric(false);
    var n := cell.IsNumeric();
    assert !n && cell.base.alignment == Leading;
  }
}
