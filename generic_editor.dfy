/**
 * `GenericEditor`: a table-cell editor over a text field that turns the text into
 * an object of the column's class through that class's single-`String`-argument
 * constructor. Its `value` field is what the host reads back as the cell value.
 */
module Generic {
  import opened Wrappers
  import opened Reflection

  /** The border of the editing text field. */
  datatype Border =
    | LookAndFeel  // the text field's own border, before any edit began
    | Normal       // black line border: an edit is in progress
    | Error        // red line border: a commit failed

  /** The horizontal alignment of the editing text field. */
  datatype Alignment = Leading | Right

  /** The outcome of the conversion part of a commit. */
  datatype Commit =
    | Failed                      // an exception was caught: error border, commit refused
    | Stored(value: Option<Obj>)  // the `value` field afterwards; the host decides the result

  /**
   * What a commit of `text` does to the `value` field, given the constructor
   * chosen when the edit began (`None` is a null constructor) and the current value.
   * Empty text is never converted: a `String` column stores "", any other column
   * keeps its value. Other text goes through the constructor. A null constructor
   * throws `NullPointerException` inside the `try`, which is caught as a failure.
   */
  function CommitValue(rt: Runtime, ctor: Option<ClassRef>, value: Option<Obj>, text: string): (c: Commit)
    requires ctor.Some? ==> Usable(rt, ctor.value)
  {
    if ctor.None? then Failed
    else if text == "" then Stored(if ctor.value == StringClass then Some(Str(text)) else value)
    else
      match NewInstance(rt, ctor.value, text)
      case None => Failed
      case Some(o) => Stored(Some(o))
  }

  /** Empty text is not converted and never fails once a constructor is chosen. */
  lemma EmptyTextNotConverted(rt: Runtime, c: ClassRef, value: Option<Obj>)
    requires Usable(rt, c)
    ensures CommitValue(rt, Some(c), value, "").Stored?
    ensures c == StringClass ==> CommitValue(rt, Some(c), value, "").value == Some(Str(""))
    ensures c != StringClass ==> CommitValue(rt, Some(c), value, "").value == value
  {
  }

  /** On a `String` column every text commits, and the stored value is the text itself. */
  lemma StringColumnStoresText(rt: Runtime, value: Option<Obj>, text: string)
    ensures CommitValue(rt, Some(StringClass), value, text) == Stored(Some(Str(text)))
  {
  }

  /**
   * On an `Integer` column non-empty text commits exactly when `Integer.parseInt`
   * accepts it, and the parsed number is stored.
   */
  lemma IntegerColumnParses(rt: Runtime, value: Option<Obj>, text: string)
    requires text != ""
    ensures CommitValue(rt, Some(IntegerClass), value, text).Stored? <==> JavaInt.ParseInt(text).Some?
    ensures JavaInt.ParseInt(text).Some? ==>
              CommitValue(rt, Some(IntegerClass), value, text).value == Some(Integer(JavaInt.ParseInt(text).value))
  {
  }

  /** Without a constructor (no edit ever began successfully) every commit fails. */
  lemma NullConstructorFails(rt: Runtime, value: Option<Obj>, text: string)
    ensures CommitValue(rt, None, value, text) == Failed
  {
  }

  /**
   * The value a commit stores is assignable to the column the edit began on, as long
   * as the value it started from was: the constructor's promise to produce a value
   * assignable for the required type.
   */
  lemma CommitStoresAssignable(rt: Runtime, declared: ClassRef, value: Option<Obj>, text: string)
    requires LookupConstructor(rt, declared).Some?
    requires value.Some? ==> InstanceOf(value.value, LookupConstructor(rt, declared).value)
    ensures var c := CommitValue(rt, LookupConstructor(rt, declared), value, text);
            c.Stored? && c.value.Some? ==> AssignableTo(c.value.value, declared)
  {
    var ctor := LookupConstructor(rt, declared);
    if text != "" && NewInstance(rt, ctor.value, text).Some? {
      ConstructedIsAssignable(rt, declared, text);
    }
  }

  class GenericEditor {
    const runtime: Runtime
    /** The `constructor` field; `None` is null. */
    var ctor: Option<ClassRef>
    /** The `value` field; `None` is null. */
    var value: Option<Obj>
    // State of the editing text field.
    var text: string
    var border: Border
    var alignment: Alignment

    ghost predicate Valid()
      reads this
    {
      ctor.Some? ==> Usable(runtime, ctor.value)
    }

    /** A fresh editor over a new, empty text field. */
    constructor (rt: Runtime)
      ensures Valid() && runtime == rt
      ensures ctor == None && value == None
      ensures text == "" && border == LookAndFeel && alignment == Leading
    {
      runtime := rt;
      ctor := None;
      value := None;
      text := "";
      border := LookAndFeel;
      alignment := Leading;
    }

    /** The user edits the text field. */
    method SetText(t: string)
      modifies this
      ensures text == t
      ensures ctor == old(ctor) && value == old(value)
      ensures border == old(border) && alignment == old(alignment)
    {
      text := t;
    }

    /**
     * `getTableCellEditorComponent`: begins an edit of a cell of a column declared
     * `declared` whose value displays as `cellText`. Clears `value`, resets the
     * border, and picks the constructor; `shown` is false where Java returns null,
     * and then the previous constructor is kept.
     */
    method GetTableCellEditorComponent(declared: ClassRef, cellText: string) returns (shown: bool)
      requires Valid()
      modifies this
      ensures Valid()
      ensures value == None && border == Normal
      ensures shown <==> LookupConstructor(runtime, declared).Some?
      ensures shown ==> ctor == LookupConstructor(runtime, declared) && text == cellText
      ensures !shown ==> ctor == old(ctor) && text == old(text)
      ensures alignment == old(alignment)
    {
      value := None;
      border := Normal;
      var c := declared;
      if c == ObjectClass {
        c := StringClass;
      }
      if !Usable(runtime, c) {
        return false;
      }
      ctor := Some(c);
      text := cellText;  // the host's editor shows the cell's current value
      return true;
    }

    /**
     * `stopCellEditing`: converts the text into `value`. `hostStop` is the result of
     * the host editor's own stop. A failure sets the error border and refuses the
     * commit; otherwise the host's result is returned.
     */
    method StopCellEditing(hostStop: bool) returns (ok: bool)
      requires Valid()
      modifies this
      ensures Valid()
      ensures ctor == old(ctor) && text == old(text) && alignment == old(alignment)
      ensures CommitValue(runtime, old(ctor), old(value), old(text)).Failed? ==>
                !ok && border == Error && value == old(value)
      ensures CommitValue(runtime, old(ctor), old(value), old(text)).Stored? ==>
                ok == hostStop && border == old(border) &&
                value == CommitValue(runtime, old(ctor), old(value), old(text)).value
    {
      var s := text;
      if ctor.None? {
        // NullPointerException, caught with the others
        border := Error;
        return false;
      }
      if s == "" {
        if ctor.value == StringClass {
          value := Some(Str(s));
        }
        return hostStop;
      }
      var v := NewInstance(runtime, ctor.value, s);
      if v.None? {
        border := Error;
        return false;
      }
      value := v;
      return hostStop;
    }

    /** `getCellEditorValue`: the `value` field, whatever the last commit's outcome. */
    method GetCellEditorValue() returns (v: Option<Obj>)
      ensures v == value
    {
      v := value;
    }
  }
}
