/**
 * `ValidatingCellEditor`: a `GenericEditor` whose commits must also pass a domain
 * check, `performValidation`. A failed check turns the border red, notifies every
 * registered validation-error listener in registration order and refuses the commit.
 * The editor also carries a `numeric` flag that decides the text alignment.
 *
 * Java's inheritance is modelled by composition: `base` is the `GenericEditor`
 * part of this object, and the inherited methods forward to it.
 */
module Validating {
  import opened Wrappers
  import opened Reflection
  import opened Generic

  /** A registered `CellValidationErrorListener`; equal ids are equal listeners. */
  type ListenerId = nat

  /** The alignment `setNumeric` applies: right for numbers, the leading default otherwise. */
  function AlignmentFor(numeric: bool): (a: Alignment) {
    if numeric then Right else Leading
  }

  /** The index of the first occurrence of `l` in `s`. */
  function FirstIndex(s: seq<ListenerId>, l: ListenerId): (i: nat)
    requires l in s
    ensures i < |s| && s[i] == l
    ensures forall j :: 0 <= j < i ==> s[j] != l
  {
    if s[0] == l then 0 else 1 + FirstIndex(s[1..], l)
  }

  /** `ArrayList.remove(Object)`: drops the first occurrence of `l`, if there is one. */
  function RemoveFirst(s: seq<ListenerId>, l: ListenerId): (r: seq<ListenerId>)
    ensures l !in s ==> r == s
    ensures |r| == if l in s then |s| - 1 else |s|
  {
    if |s| == 0 then []
    else if s[0] == l then s[1..]
    else [s[0]] + RemoveFirst(s[1..], l)
  }

  /** A present listener is removed at its first index, and only there. */
  lemma {:induction false} RemoveFirstAt(s: seq<ListenerId>, l: ListenerId)
    requires l in s
    ensures RemoveFirst(s, l) == s[..FirstIndex(s, l)] + s[FirstIndex(s, l) + 1..]
  {
    if s[0] != l {
      var t := s[1..];
      assert l in t;
      RemoveFirstAt(t, l);
      var i := FirstIndex(t, l);
      assert FirstIndex(s, l) == i + 1;
      assert s[..i + 1] == [s[0]] + t[..i];
      assert s[i + 2..] == t[i + 1..];
    }
  }

  /** Removing takes away exactly one registration of a present listener and nothing else. */
  lemma {:induction false} RemoveFirstCounts(s: seq<ListenerId>, l: ListenerId)
    ensures l in s ==> multiset(RemoveFirst(s, l)) == multiset(s) - multiset{l}
    ensures l !in s ==> multiset(RemoveFirst(s, l)) == multiset(s)
  {
    if |s| > 0 {
      var t := s[1..];
      assert s == [s[0]] + t;
      assert multiset(s) == multiset{s[0]} + multiset(t);
      if s[0] != l {
        RemoveFirstCounts(t, l);
        assert RemoveFirst(s, l) == [s[0]] + RemoveFirst(t, l);
        assert multiset(RemoveFirst(s, l)) == multiset{s[0]} + multiset(RemoveFirst(t, l));
        assert l in s <==> l in t;
      }
    }
  }

  /** A listener registered once is gone after one removal, so it hears of no later failure. */
  lemma RemoveSingleRegistration(s: seq<ListenerId>, l: ListenerId)
    requires multiset(s)[l] == 1
    ensures l !in RemoveFirst(s, l)
  {
    RemoveFirstCounts(s, l);
    assert multiset(RemoveFirst(s, l))[l] == 0;
  }

  /** Adding a listener and then removing it gives back the list it was added to, when it was absent before. */
  lemma {:induction false} AddThenRemove(s: seq<ListenerId>, l: ListenerId)
    requires l !in s
    ensures RemoveFirst(s + [l], l) == s
  {
    if |s| > 0 {
      assert (s + [l])[1..] == s[1..] + [l];
      AddThenRemove(s[1..], l);
      assert s == [s[0]] + s[1..];
    }
  }

  class ValidatingCellEditor {
    const base: GenericEditor
    /** `performValidation`, the domain check a concrete editor supplies. */
    const performValidation: Option<Obj> -> bool
    var errorListeners: seq<ListenerId>
    var numeric: bool
    /** Every `validationFailed` call made so far, in order. */
    ghost var notified: seq<ListenerId>

    /**
     * The text alignment follows the numeric flag. The public operations
     * (`SetNumeric`, `GetTableCellEditorComponent`, `StopCellEditing`) keep this;
     * the protected `SetHorizontalAlignment` alone can break it, and `SetNumeric`'s
     * own call to it restores it.
     */
    ghost predicate Valid()
      reads this, base
    {
      base.Valid() && base.alignment == AlignmentFor(numeric)
    }

    constructor (rt: Runtime, validation: Option<Obj> -> bool)
      ensures Valid() && fresh(base)
      ensures base.runtime == rt && performValidation == validation
      ensures errorListeners == [] && !numeric && notified == []
      ensures base.ctor == None && base.value == None
      ensures base.text == "" && base.border == LookAndFeel
    {
      base := new GenericEditor(rt);
      performValidation := validation;
      errorListeners := [];
      numeric := false;
      notified := [];
    }

    /** `addValidationErrorListener`: appends `l`, duplicates allowed. */
    method AddValidationErrorListener(l: ListenerId)
      modifies this
      ensures errorListeners == old(errorListeners) + [l]
      ensures numeric == old(numeric) && notified == old(notified)
    {
      errorListeners := errorListeners + [l];
    }

    /** `removeValidationErrorListener`: removes the first registration of `l`, if any. */
    method RemoveValidationErrorListener(l: ListenerId)
      modifies this
      ensures errorListeners == RemoveFirst(old(errorListeners), l)
      ensures numeric == old(numeric) && notified == old(notified)
    {
      errorListeners := RemoveFirst(errorListeners, l);
    }

    /** `fireValidationFailed`: calls `validationFailed` on each listener, in list order. */
    method FireValidationFailed()
      modifies this`notified
      ensures notified == old(notified) + errorListeners
    {
      for i := 0 to |errorListeners|
        invariant notified == old(notified) + errorListeners[..i]
      {
        notified := notified + [errorListeners[i]];
      }
    }

    /** `setCellBorder`. */
    method SetCellBorder(b: Border)
      modifies base
      ensures base.border == b
      ensures base.ctor == old(base.ctor) && base.value == old(base.value)
      ensures base.text == old(base.text) && base.alignment == old(base.alignment)
    {
      base.border := b;
    }

    /** `setHorizontalAlignment`. */
    method SetHorizontalAlignment(a: Alignment)
      modifies base
      ensures base.alignment == a
      ensures base.ctor == old(base.ctor) && base.value == old(base.value)
      ensures base.text == old(base.text) && base.border == old(base.border)
    {
      base.alignment := a;
    }

    /** `isNumeric`. */
    method IsNumeric() returns (b: bool)
      ensures b == numeric
    {
      b := numeric;
    }

    /** `setNumeric`: records the flag and aligns the text right or at the leading default. */
    method SetNumeric(b: bool)
      requires base.Valid()
      modifies this, base
      ensures Valid()
      ensures numeric == b && base.alignment == AlignmentFor(b)
      ensures errorListeners == old(errorListeners) && notified == old(notified)
      ensures base.ctor == old(base.ctor) && base.value == old(base.value)
      ensures base.text == old(base.text) && base.border == old(base.border)
    {
      numeric := b;
      SetHorizontalAlignment(if numeric then Right else Leading);
    }

    /** `getTableCellEditorComponent`, inherited. */
    method GetTableCellEditorComponent(declared: ClassRef, cellText: string) returns (shown: bool)
      requires Valid()
      modifies base
      ensures Valid()
      ensures base.value == None && base.border == Normal
      ensures shown <==> LookupConstructor(base.runtime, declared).Some?
      ensures shown ==> base.ctor == LookupConstructor(base.runtime, declared) && base.text == cellText
      ensures !shown ==> base.ctor == old(base.ctor) && base.text == old(base.text)
    {
      shown := base.GetTableCellEditorComponent(declared, cellText);
    }

    /** `getCellEditorValue`, inherited: the value field, even after a refused commit. */
    method GetCellEditorValue() returns (v: Option<Obj>)
      ensures v == base.value
    {
      v := base.GetCellEditorValue();
    }

    /**
     * `stopCellEditing`: the generic commit first; only when it succeeds is the
     * value validated. A failed validation sets the error border, notifies every
     * listener once in list order and refuses the commit. A failed generic commit
     * notifies nobody.
     */
    method StopCellEditing(hostStop: bool) returns (ok: bool)
      requires Valid()
      modifies this, base
      ensures Valid()
      ensures errorListeners == old(errorListeners) && numeric == old(numeric)
      ensures base.ctor == old(base.ctor) && base.text == old(base.text)
      ensures var c := CommitValue(base.runtime, old(base.ctor), old(base.value), old(base.text));
              c.Failed? ==> !ok && base.border == Error && base.value == old(base.value) && notified == old(notified)
      ensures var c := CommitValue(base.runtime, old(base.ctor), old(base.value), old(base.text));
              c.Stored? ==> base.value == c.value
      ensures var c := CommitValue(base.runtime, old(base.ctor), old(base.value), old(base.text));
              c.Stored? && !hostStop ==> !ok && base.border == old(base.border) && notified == old(notified)
      ensures var c := CommitValue(base.runtime, old(base.ctor), old(base.value), old(base.text));
              c.Stored? && hostStop && !performValidation(c.value) ==>
                !ok && base.border == Error && notified == old(notified) + errorListeners
      ensures var c := CommitValue(base.runtime, old(base.ctor), old(base.value), old(base.text));
              c.Stored? && hostStop && performValidation(c.value) ==>
                ok && base.border == old(base.border) && notified == old(notified)
    {
      var parent := base.StopCellEditing(hostStop);
      if !parent {
        return false;
      }
      if !performValidation(base.value) {
        SetCellBorder(Error);
        FireValidationFailed();
        return false;
      }
      return true;
    }
  }
}
