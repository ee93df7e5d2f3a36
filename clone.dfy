/** The shallow clone of UnlockPremiumPatch.shallowCloneObject: a new object of the
    original's runtime class, allocated without running a constructor, that receives
    the value of every instance field declared anywhere in the class's ancestry.
 */
module Clone {
  import opened Outcomes
  import opened Reflect

  /** Whether Unsafe.allocateInstance accepts the runtime class of the chain (a chain
      without levels is java.lang.Object itself, which it accepts). */
  predicate Instantiable(chain: Chain) {
    chain == [] || chain[0].allocatable
  }

  /** The name of the first non-static field, in the order the copy loop visits them
      (level by level from the runtime class, each class's fields in declaration
      order), that cannot be opened for reflection, starting at field `j` of level
      `level`. */
  function FirstInaccessible(chain: Chain, level: nat, j: nat): (r: Option<string>)
    decreases |chain| - level, if level < |chain| then |chain[level].fields| - j else 0
  {
    if level >= |chain| then None
    else if j >= |chain[level].fields| then FirstInaccessible(chain, level + 1, 0)
    else
      var d := chain[level].fields[j];
      if !d.isStatic && !d.accessible then Some(d.name)
      else FirstInaccessible(chain, level, j + 1)
  }

  /** Whether cloning an object of the chain fails, and with which cause. */
  function CloneFailure(chain: Chain): Option<Failure> {
    if !Instantiable(chain) then Some(NotInstantiable(chain[0].name))
    else match FirstInaccessible(chain, 0, 0)
      case Some(name) => Some(InaccessibleField(name))
      case None => None
  }

  /** The copy loop finds an inaccessible field exactly when the ancestry declares one
      (from the given position on), and the one it finds is inaccessible. */
  lemma {:induction false} FirstInaccessibleSound(chain: Chain, level: nat, j: nat)
    ensures FirstInaccessible(chain, level, j).None? <==>
              (level < |chain| ==> forall k | j <= k < |chain[level].fields| :: chain[level].fields[k].isStatic || chain[level].fields[k].accessible)
              && forall i | level < i < |chain| :: InaccessibleNames(chain[i].fields) == {}
    ensures FirstInaccessible(chain, level, j).Some? ==>
              exists i | level <= i < |chain| :: FirstInaccessible(chain, level, j).value in InaccessibleNames(chain[i].fields)
    decreases |chain| - level, if level < |chain| then |chain[level].fields| - j else 0
  {
    if level >= |chain| {
    } else if j >= |chain[level].fields| {
      FirstInaccessibleSound(chain, level + 1, 0);
    } else {
      var d := chain[level].fields[j];
      FirstInaccessibleSound(chain, level, j + 1);
      if !d.isStatic && !d.accessible {
        assert d.name in InaccessibleNames(chain[level].fields);
      }
    }
  }

  /** Cloning succeeds exactly when the runtime class may be allocated and every
      instance field of the ancestry may be opened. */
  lemma CloneFailureIff(chain: Chain)
    ensures CloneFailure(chain).None? <==>
              Instantiable(chain) && forall i | 0 <= i < |chain| :: InaccessibleNames(chain[i].fields) == {}
  {
    FirstInaccessibleSound(chain, 0, 0);
  }

  /** One of the first `j` fields of `fields` is an instance field called `name`. */
  predicate DeclaredBefore(fields: seq<FieldDecl>, name: string, j: nat)
    decreases j
  {
    0 < j <= |fields| && ((fields[j - 1].name == name && !fields[j - 1].isStatic) || DeclaredBefore(fields, name, j - 1))
  }

  /** Over all the fields, that is being one of the instance field names. */
  lemma {:induction false} DeclaredBeforeAll(fields: seq<FieldDecl>, name: string, j: nat)
    requires j <= |fields|
    ensures DeclaredBefore(fields, name, j) <==> exists k | 0 <= k < j :: fields[k].name == name && !fields[k].isStatic
    decreases j
  {
    if j > 0 {
      DeclaredBeforeAll(fields, name, j - 1);
    }
  }

  /** The slots the copy loop has written once it stands at field `j` of level `level`. */
  ghost predicate Copied(chain: Chain, s: Slot, level: nat, j: nat) {
    s.level < level || (s.level == level && level < |chain| && DeclaredBefore(chain[level].fields, s.name, j))
  }

  /** Moving past field `j` of level `level` adds that field, if an instance field, to
      what has been copied. */
  lemma CopiedStep(chain: Chain, s: Slot, level: nat, j: nat)
    requires level < |chain| && j < |chain[level].fields|
    ensures Copied(chain, s, level, j + 1) <==>
              Copied(chain, s, level, j) ||
              (s == Slot(level, chain[level].fields[j].name) && !chain[level].fields[j].isStatic)
  {
  }

  /** Unsafe.allocateInstance(original.getClass()). */
  method AllocateInstance(chain: Chain) returns (r: Outcome<Record>)
    ensures Instantiable(chain) <==> r.Returned?
    ensures r.Returned? ==> fresh(r.value) && r.value.chain == chain && r.value.slots == ZeroSlots(chain)
    ensures r.Threw? ==> r.failure == NotInstantiable(chain[0].name)
  {
    if !Instantiable(chain) {
      return Threw(NotInstantiable(chain[0].name));
    }
    var o := new Record.Allocate(chain);
    return Returned(o);
  }

  /** The inner loop of shallowCloneObject (lines 157-169) over the fields that level
      `level` of the chain declares: it copies each instance field's value from the
      original into the clone, and stops at the first field that cannot be opened,
      whose name it returns. It writes to the clone alone. */
  method CopyLevel(original: Record, clone: Record, level: nat) returns (inaccessible: Option<string>)
    requires original.Valid() && clone != original && clone.chain == original.chain && level < |clone.chain|
    requires clone.slots.Keys == InstanceSlots(clone.chain)
    requires forall s | s in clone.slots :: clone.slots[s] == if Copied(clone.chain, s, level, 0) then original.slots[s] else Null
    modifies clone
    ensures inaccessible.Some? ==> FirstInaccessible(clone.chain, level, 0) == inaccessible
    ensures inaccessible.None? ==>
              && FirstInaccessible(clone.chain, level, 0) == FirstInaccessible(clone.chain, level + 1, 0)
              && clone.slots.Keys == InstanceSlots(clone.chain)
              && forall s | s in clone.slots :: clone.slots[s] == if Copied(clone.chain, s, level + 1, 0) then original.slots[s] else Null
  {
    var chain := clone.chain;
    var fields := chain[level].fields;
    var j := 0;
    while j < |fields|
      invariant 0 <= j <= |fields|
      invariant FirstInaccessible(chain, level, j) == FirstInaccessible(chain, level, 0)
      invariant clone.slots.Keys == InstanceSlots(chain)
      invariant forall s | s in clone.slots :: clone.slots[s] == if Copied(chain, s, level, j) then original.slots[s] else Null
    {
      var f := fields[j];
      if !f.isStatic {
        if !f.accessible {
          return Some(f.name);
        }
        var slot := Slot(level, f.name);
        assert slot in InstanceSlots(chain);
        clone.slots := clone.slots[slot := original.slots[slot]];
      }
      forall s | s in clone.slots
        ensures clone.slots[s] == if Copied(chain, s, level, j + 1) then original.slots[s] else Null
      {
        CopiedStep(chain, s, level, j);
      }
      j := j + 1;
    }
    forall s | s in clone.slots && s.level == level ensures DeclaredBefore(fields, s.name, j) {
      DeclaredBeforeAll(fields, s.name, j);
    }
    return None;
  }

  /** shallowCloneObject. On success the clone is a new object, of the same runtime
      class, holding the same value in every instance field; the original is not
      written. On failure no object is returned: the cause, wrapped as the
      RuntimeException the source throws, is. */
  method ShallowClone(original: Record) returns (r: Outcome<Record>)
    requires original.Valid()
    ensures CloneFailure(original.chain).Some? ==> r == Threw(CloneFailed(CloneFailure(original.chain).value))
    ensures CloneFailure(original.chain).None? ==>
              r.Returned? && fresh(r.value) && r.value.View() == original.View() && r.value.Valid()
  {
    var chain := original.chain;
    var allocation := AllocateInstance(chain);
    if allocation.Threw? {
      return Threw(CloneFailed(allocation.failure));
    }
    var clone := allocation.value;
    var level := 0;
    while level < |chain|
      invariant 0 <= level <= |chain|
      invariant fresh(clone) && clone.chain == chain
      invariant FirstInaccessible(chain, level, 0) == FirstInaccessible(chain, 0, 0)
      invariant clone.slots.Keys == InstanceSlots(chain)
      invariant forall s | s in clone.slots :: clone.slots[s] == if Copied(chain, s, level, 0) then original.slots[s] else Null
    {
      var inaccessible := CopyLevel(original, clone, level);
      if inaccessible.Some? {
        return Threw(CloneFailed(InaccessibleField(inaccessible.value)));
      }
      level := level + 1;
    }
    assert clone.slots == original.slots;
    return Returned(clone);
  }
}
