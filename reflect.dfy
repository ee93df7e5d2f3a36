/** The reflective object accessor: host objects whose layout is known only at run
    time, read and written field by field, as XposedHelpers.getObjectField,
    setObjectField and getIntField do for UnlockPremiumPatch.

    An object's runtime class and its superclasses form a chain: level 0 is the
    runtime class, each next level its superclass, up to but excluding
    java.lang.Object. A field is identified by its level and its name, so a field
    that a subclass redeclares with a superclass's name is a different slot.
 */
module Reflect {
  import opened Outcomes

  /** A field value. Java's `equals` on the boxed Boolean, String and Integer values
      the override rules carry is equality of kind and content, which is what `==`
      on this datatype is; a Boolean never equals a String. `Ref` stands for any
      other object, compared by identity as Object.equals does. */
  datatype Value = Null | Bool(b: bool) | Str(s: string) | Int(i: int) | Ref(address: nat)

  /** A field as Class.getDeclaredFields reports it. */
  datatype FieldDecl = FieldDecl(name: string, isStatic: bool, accessible: bool)

  /** One class of the ancestry: its name, whether Unsafe.allocateInstance accepts it,
      and its declared fields in declaration order. */
  datatype ClassDecl = ClassDecl(name: string, allocatable: bool, fields: seq<FieldDecl>)

  type Chain = seq<ClassDecl>

  datatype Slot = Slot(level: nat, name: string)

  /** The contents of an object: its class chain and the current value of each
      instance field. */
  datatype RecordView = RecordView(chain: Chain, slots: map<Slot, Value>)

  /** Names of the non-static fields among `fields`. */
  function InstanceNames(fields: seq<FieldDecl>): set<string> {
    set k | 0 <= k < |fields| && !fields[k].isStatic :: fields[k].name
  }

  /** Names of the non-static fields among `fields` that reflection may not open. */
  function InaccessibleNames(fields: seq<FieldDecl>): set<string> {
    set k | 0 <= k < |fields| && !fields[k].isStatic && !fields[k].accessible :: fields[k].name
  }

  /** Every instance field at every level of the chain. */
  function InstanceSlots(chain: Chain): set<Slot> {
    set i: nat, n | i < |chain| && n in InstanceNames(chain[i].fields) :: Slot(i, n)
  }

  /** An object of the chain holds exactly one value per instance field. */
  predicate WellFormed(v: RecordView) {
    v.slots.Keys == InstanceSlots(v.chain)
  }

  /** The state of a freshly allocated object: no constructor has run, so every
      instance field holds its zero value. */
  function ZeroSlots(chain: Chain): (slots: map<Slot, Value>)
    ensures slots.Keys == InstanceSlots(chain)
    ensures forall s | s in slots :: slots[s] == Null
  {
    map s | s in InstanceSlots(chain) :: Null
  }

  /** XposedHelpers.findField: the nearest level, starting from `from`, that declares an
      instance field called `name`. */
  function FindField(chain: Chain, name: string, from: nat := 0): (r: Option<Slot>)
    decreases |chain| - from
    ensures r.Some? ==> r.value in InstanceSlots(chain) && r.value.name == name && from <= r.value.level
    ensures r.Some? ==> forall i | from <= i < r.value.level :: name !in InstanceNames(chain[i].fields)
    ensures r.None? ==> forall i | from <= i < |chain| :: name !in InstanceNames(chain[i].fields)
  {
    if from >= |chain| then None
    else if name in InstanceNames(chain[from].fields) then Some(Slot(from, name))
    else FindField(chain, name, from + 1)
  }

  /** Locates field `name` as findField does and opens it for access: a missing field
      is a NoSuchFieldError, one that cannot be opened an InaccessibleObjectException. */
  function Locate(chain: Chain, name: string): (r: Outcome<Slot>)
    ensures r.Returned? ==> r.value in InstanceSlots(chain) && r.value.name == name
    ensures r.Threw? ==> r.failure == NoSuchField(name) || r.failure == InaccessibleField(name)
    ensures r.Threw? && IsError(r.failure) <==> forall i | 0 <= i < |chain| :: name !in InstanceNames(chain[i].fields)
  {
    match FindField(chain, name)
    case None => Threw(NoSuchField(name))
    case Some(slot) =>
      if name in InaccessibleNames(chain[slot.level].fields) then Threw(InaccessibleField(name))
      else Returned(slot)
  }

  /** XposedHelpers.getObjectField. */
  function ReadField(v: RecordView, name: string): (r: Outcome<Value>)
    ensures r.Returned? <==> Locate(v.chain, name).Returned?
    ensures r.Threw? ==> r.failure == Locate(v.chain, name).failure
    ensures r.Returned? && WellFormed(v) ==> r.value == v.slots[Locate(v.chain, name).value]
  {
    match Locate(v.chain, name)
    case Threw(f) => Threw(f)
    case Returned(slot) => Returned(if slot in v.slots then v.slots[slot] else Null)
  }

  /** XposedHelpers.setObjectField, on the contents of an object. */
  function WriteField(v: RecordView, name: string, x: Value): (r: Outcome<RecordView>)
    ensures r.Returned? <==> Locate(v.chain, name).Returned?
    ensures r.Threw? ==> r.failure == Locate(v.chain, name).failure
    ensures r.Returned? ==> r.value.chain == v.chain && ReadField(r.value, name) == Returned(x)
    ensures r.Returned? ==> forall s | s in v.slots && s != Locate(v.chain, name).value :: s in r.value.slots && r.value.slots[s] == v.slots[s]
    ensures r.Returned? && WellFormed(v) ==> WellFormed(r.value)
  {
    match Locate(v.chain, name)
    case Threw(f) => Threw(f)
    case Returned(slot) => Returned(v.(slots := v.slots[slot := x]))
  }

  /** XposedHelpers.getIntField: the field must hold an int. */
  function ReadIntField(v: RecordView, name: string): (r: Outcome<int>)
    ensures r.Returned? <==> ReadField(v, name).Returned? && ReadField(v, name).value.Int?
    ensures r.Returned? ==> ReadField(v, name).value == Int(r.value)
    ensures r.Threw? && ReadField(v, name).Threw? ==> r.failure == ReadField(v, name).failure
    ensures ReadField(v, name).Returned? && !ReadField(v, name).value.Int? ==> r == Threw(NotAnInt(name))
  {
    match ReadField(v, name)
    case Threw(f) => Threw(f)
    case Returned(x) => if x.Int? then Returned(x.i) else Threw(NotAnInt(name))
  }

  /** A host object: an identity (the Dafny reference), the class chain of its runtime
      type and the current values of its instance fields. */
  class Record {
    const chain: Chain
    var slots: map<Slot, Value>

    ghost predicate Valid()
      reads this
    {
      WellFormed(View())
    }

    function View(): RecordView
      reads this
    {
      RecordView(chain, slots)
    }

    /** Unsafe.allocateInstance once it has accepted the class: a new object of the
        given runtime type on which no constructor has run. */
    constructor Allocate(chain: Chain)
      ensures this.chain == chain && slots == ZeroSlots(chain)
      ensures Valid()
    {
      this.chain := chain;
      slots := ZeroSlots(chain);
    }

    /** XposedHelpers.getObjectField(this, name). */
    function GetObjectField(name: string): Outcome<Value>
      reads this
    {
      ReadField(View(), name)
    }

    /** XposedHelpers.setObjectField(this, name, x): on success this object, and only
        this one, now holds `x` in the field that findField locates. */
    method SetObjectField(name: string, x: Value) returns (r: Outcome<()>)
      requires Valid()
      modifies this
      ensures Valid()
      ensures r.Returned? <==> WriteField(old(View()), name, x).Returned?
      ensures r.Returned? ==> View() == WriteField(old(View()), name, x).value
      ensures r.Threw? ==> r.failure == Locate(chain, name).failure && slots == old(slots)
    {
      var located := Locate(chain, name);
      if located.Threw? {
        return Threw(located.failure);
      }
      slots := slots[located.value := x];
      return Returned(());
    }
  }
}
