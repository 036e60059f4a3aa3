/**
 * The part of Java reflection the generic editor relies on: the class a table
 * column declares, the objects a single-`String`-argument constructor builds,
 * and whether such a constructor can be looked up and used. `String(String)`
 * and `Integer(String)` are interpreted; the constructors of every other class
 * are left abstract in a `Runtime`.
 */
module Reflection {
  import opened Wrappers
  import opened JavaInt

  /** A column class. `OtherClass` names any class other than these three. */
  datatype ClassRef = ObjectClass | StringClass | IntegerClass | OtherClass(name: string)

  /** A value object: a `String`, an `Integer`, or an opaque instance of another class. */
  datatype Obj = Str(s: string) | Integer(n: int) | Instance(cls: string, id: nat)

  /**
   * The uninterpreted part of the JVM: for a class other than Object, String and
   * Integer, whether a public `(String)` constructor exists and passes the package
   * and access checks, and what calling it on a text builds (`None` when it throws).
   */
  datatype Runtime = Runtime(hasStringConstructor: string -> bool,
                             construct: (string, string) -> Option<nat>)

  /** `getConstructor(String.class)` succeeds and the access checks pass. */
  predicate Usable(rt: Runtime, c: ClassRef) {
    match c
    case ObjectClass => false  // Object has no (String) constructor
    case StringClass => true
    case IntegerClass => true
    case OtherClass(name) => rt.hasStringConstructor(name)
  }

  predicate InstanceOf(o: Obj, c: ClassRef) {
    match o
    case Str(_) => c == StringClass
    case Integer(_) => c == IntegerClass
    case Instance(name, _) => c == OtherClass(name)
  }

  /** Whether `o` may be stored in a column declared with class `c`. */
  predicate AssignableTo(o: Obj, c: ClassRef) {
    c == ObjectClass || InstanceOf(o, c)
  }

  /**
   * The constructor an edit of a column declared `declared` uses (by the class it
   * belongs to): a column of `Object` is edited through `String`'s constructor.
   * `None` when no usable single-`String` constructor exists.
   */
  function LookupConstructor(rt: Runtime, declared: ClassRef): (r: Option<ClassRef>)
    ensures r.Some? ==> Usable(rt, r.value)
    ensures declared == ObjectClass ==> r == Some(StringClass)
    ensures declared != ObjectClass ==> (r.Some? <==> Usable(rt, declared))
    ensures r.Some? && declared != ObjectClass ==> r.value == declared
  {
    var c := if declared == ObjectClass then StringClass else declared;
    if Usable(rt, c) then Some(c) else None
  }

  /** `constructor.newInstance(s)` for the constructor of class `c`; `None` when it throws. */
  function NewInstance(rt: Runtime, c: ClassRef, s: string): (r: Option<Obj>)
    requires Usable(rt, c)
    ensures r.Some? ==> InstanceOf(r.value, c)
  {
    match c
    case StringClass => Some(Str(s))
    case IntegerClass =>
      (match ParseInt(s)
       case Some(n) => Some(Integer(n))
       case None => None)
    case OtherClass(name) =>
      (match rt.construct(name, s)
       case Some(id) => Some(Instance(name, id))
       case None => None)
  }

  /**
   * Whatever a looked-up constructor builds can be stored in the column it was
   * looked up for.
   */
  lemma ConstructedIsAssignable(rt: Runtime, declared: ClassRef, s: string)
    requires LookupConstructor(rt, declared).Some?
    requires NewInstance(rt, LookupConstructor(rt, declared).value, s).Some?
    ensures AssignableTo(NewInstance(rt, LookupConstructor(rt, declared).value, s).value, declared)
  {
  }
}
