/** The attribute override engine of UnlockPremiumPatch: createOverriddenAttributesMap
    copies the account-attributes map and, rule by rule, puts in a patched clone of
    every attribute whose `value_` differs from the rule's value, leaving every
    attribute object it was given untouched.
 */
module Attributes {
  import opened Outcomes
  import opened Reflect
  import opened Clone

  /** OverrideAttribute: the attribute key, the value to force, and whether the
      attribute is expected to be present. */
  datatype Rule = Rule(key: string, overrideValue: Value, isExpected: bool)

  /** The name of the field of an account attribute that holds its value. */
  const ValueField := "value_"

  predicate DistinctKeys(rules: seq<Rule>) {
    forall i, j | 0 <= i < j < |rules| :: rules[i].key != rules[j].key
  }

  /** PREMIUM_OVERRIDES, in declaration order. Objects.requireNonNull in the rule's
      constructor keeps every override value non-null. */
  function PremiumOverrides(): (rules: seq<Rule>)
    ensures |rules| == 10
    ensures forall i | 0 <= i < |rules| :: rules[i].overrideValue != Null
    ensures forall i | 0 <= i < |rules| :: !rules[i].isExpected <==> 8 <= i
  {
    [ Rule("ads", Bool(false), true),
      Rule("player-license", Str("on-demand"), true),
      Rule("shuffle", Bool(false), true),
      Rule("on-demand", Bool(true), true),
      Rule("streaming", Bool(true), true),
      Rule("pick-and-shuffle", Bool(false), true),
      Rule("streaming-rules", Str(""), true),
      Rule("nft-disabled", Str("1"), true),
      Rule("can_use_superbird", Bool(true), false),
      Rule("tablet-free", Bool(false), false) ]
  }

  /** No two of the premium overrides share a key: their lengths differ, except for
      "on-demand" and "streaming", which differ in their first letter. */
  lemma PremiumKeysDistinct()
    ensures DistinctKeys(PremiumOverrides())
    ensures forall i | 0 <= i < 10 :: !PremiumOverrides()[i].isExpected <==> PremiumOverrides()[i].key in {"can_use_superbird", "tablet-free"}
  {
    var rules := PremiumOverrides();
    var lengths := [3, 14, 7, 9, 9, 16, 15, 12, 17, 11];
    forall i | 0 <= i < 10 ensures |rules[i].key| == lengths[i] {
    }
    forall i, j | 0 <= i < j < 10 ensures rules[i].key != rules[j].key {
      if i == 3 && j == 4 {
        assert rules[i].key[0] != rules[j].key[0];
      } else {
        assert lengths[i] != lengths[j];
      }
    }
  }

  /** The first rule for `key` at or after position `from`, if any. */
  function RuleFor(rules: seq<Rule>, key: string, from: nat := 0): (r: Option<Rule>)
    decreases |rules| - from
    ensures r.None? <==> forall j | from <= j < |rules| :: rules[j].key != key
    ensures r.Some? ==> r.value.key == key
  {
    if from >= |rules| then None
    else if rules[from].key == key then Some(rules[from])
    else RuleFor(rules, key, from + 1)
  }

  /** With one rule per key, the rule for a key is the one rule that has it. */
  lemma {:induction false} RuleForIsTheRule(rules: seq<Rule>, key: string, from: nat, j: nat)
    requires DistinctKeys(rules) && from <= j < |rules| && rules[j].key == key
    ensures RuleFor(rules, key, from) == Some(rules[j])
    decreases j - from
  {
    if from < j {
      RuleForIsTheRule(rules, key, from + 1, j);
    }
  }

  /** The diagnostics the pass writes through Logger. */
  datatype LogEvent =
    | MissingExpected(key: string)                     // "Attribute ... expected but not found"
    | Overriding(key: string, from: Value, to: Value)  // "Overriding account attribute ..."

  /** What one rule does to the entry it finds under its key (None: no entry, or null). */
  datatype Action =
    | Absent
    | AlreadySet
    | Patch(from: Value, patched: RecordView)
    | Fail(failure: Failure)

  /** Lines 107-128 of createOverriddenAttributesMap for one rule: what it does to the
      attribute it finds under the rule's key. */
  function RuleAction(rule: Rule, entry: Option<RecordView>): Action
  {
    match entry
    case None => Absent
    case Some(attribute) =>
      match ReadField(attribute, ValueField)
      case Threw(f) => Fail(f)
      case Returned(current) =>
        if rule.overrideValue == current then AlreadySet
        else match CloneFailure(attribute.chain)
          case Some(f) => Fail(CloneFailed(f))
          case None => Patch(current, WriteField(attribute, ValueField, rule.overrideValue).value)
  }

  /** A rule skips exactly a missing or null attribute and one whose value already
      equals the override (compared as Object.equals compares them); it patches an
      attribute whose value differs, when the attribute can be cloned, into a copy
      with the same class whose value is the override and whose other fields are the
      attribute's; and it fails with the failure of the read or of the clone. */
  lemma RuleActionMeaning(rule: Rule, entry: Option<RecordView>)
    ensures var a := RuleAction(rule, entry);
      && (a.Absent? <==> entry.None?)
      && (a.AlreadySet? <==> entry.Some? && ReadField(entry.value, ValueField) == Returned(rule.overrideValue))
      && (a.Patch? <==>
            entry.Some? && ReadField(entry.value, ValueField).Returned? &&
            ReadField(entry.value, ValueField).value != rule.overrideValue && CloneFailure(entry.value.chain).None?)
      && (a.Patch? ==>
            && ReadField(entry.value, ValueField) == Returned(a.from)
            && a.patched.chain == entry.value.chain
            && ReadField(a.patched, ValueField) == Returned(rule.overrideValue)
            && (forall s | s in entry.value.slots && s != Locate(entry.value.chain, ValueField).value ::
                  s in a.patched.slots && a.patched.slots[s] == entry.value.slots[s])
            && (WellFormed(entry.value) ==> WellFormed(a.patched)))
      && (a.Fail? ==>
            entry.Some? &&
            (if ReadField(entry.value, ValueField).Threw? then a.failure == ReadField(entry.value, ValueField).failure
             else CloneFailure(entry.value.chain).Some? && a.failure == CloneFailed(CloneFailure(entry.value.chain).value)))
  {
  }

  /** The contents of an attributes map, entry by entry (None for a null value). */
  type Contents = map<string, Option<RecordView>>

  function Lookup(view: Contents, key: string): Option<RecordView> {
    if key in view then view[key] else None
  }

  /** Every attribute object recorded in `view` holds one value per declared instance
      field, as every Java object does. */
  predicate ContentsWellFormed(view: Contents) {
    forall k | k in view && view[k].Some? :: WellFormed(view[k].value)
  }

  /** Where the pass stands: the contents of `result`, the keys under which it has put
      a clone, and what it has logged. */
  datatype PassState = PassState(view: Contents, cloned: set<string>, log: seq<LogEvent>)

  function Start(view: Contents): PassState {
    PassState(view, {}, [])
  }

  /** One iteration of the loop of createOverriddenAttributesMap on the state `st`. */
  function Step(rule: Rule, st: PassState): (r: Outcome<PassState>)
    ensures r.Threw? <==> RuleAction(rule, Lookup(st.view, rule.key)).Fail?
    ensures r.Returned? ==> r.value.view.Keys == st.view.Keys
  {
    match RuleAction(rule, Lookup(st.view, rule.key))
    case Absent =>
      Returned(st.(log := st.log + if rule.isExpected then [MissingExpected(rule.key)] else []))
    case AlreadySet =>
      Returned(st)
    case Patch(from, patched) =>
      Returned(PassState(st.view[rule.key := Some(patched)], st.cloned + {rule.key},
                         st.log + [Overriding(rule.key, from, rule.overrideValue)]))
    case Fail(f) => Threw(f)
  }

  /** A step puts in only well-formed patched copies of well-formed attributes. */
  lemma StepKeepsWellFormed(rule: Rule, st: PassState)
    requires ContentsWellFormed(st.view) && Step(rule, st).Returned?
    ensures ContentsWellFormed(Step(rule, st).value.view)
  {
    RuleActionMeaning(rule, Lookup(st.view, rule.key));
  }

  /** The body of the try block of createOverriddenAttributesMap, applying the rules
      from position `from` on, in order, to the copy `st.view`: either it completes,
      or it throws the failure of the first rule that fails. */
  function OverridePass(rules: seq<Rule>, st: PassState, from: nat := 0): Outcome<PassState>
    decreases |rules| - from
  {
    if from >= |rules| then Returned(st)
    else match Step(rules[from], st)
      case Returned(next) => OverridePass(rules, next, from + 1)
      case Threw(f) => Threw(f)
  }

  /** The contents of the map the injection point hands back to the host. */
  function Overridden(rules: seq<Rule>, view: Contents): Contents {
    match OverridePass(rules, Start(view))
    case Returned(st) => st.view
    case Threw(_) => view
  }

  /** The entry a key ends up with when `rule` (if any) is the one rule for it. */
  function EntryAfter(rule: Option<Rule>, entry: Option<RecordView>): Option<RecordView> {
    match rule
    case None => entry
    case Some(r) => if RuleAction(r, entry).Patch? then Some(RuleAction(r, entry).patched) else entry
  }

  /** The pass puts entries only under keys it found: the key set does not change. */
  lemma {:induction false} PassKeepsKeys(rules: seq<Rule>, st: PassState, from: nat)
    requires OverridePass(rules, st, from).Returned?
    ensures OverridePass(rules, st, from).value.view.Keys == st.view.Keys
    ensures st.cloned <= OverridePass(rules, st, from).value.cloned <= st.cloned + st.view.Keys
    decreases |rules| - from
  {
    if from < |rules| {
      PassKeepsKeys(rules, Step(rules[from], st).value, from + 1);
    }
  }

  /** With one rule per key, no rule after a key's own rule has that key. */
  lemma RuleForPastOwnRule(rules: seq<Rule>, from: nat)
    requires DistinctKeys(rules) && from < |rules|
    ensures RuleFor(rules, rules[from].key, from + 1).None?
  {
    forall j | from + 1 <= j < |rules| ensures rules[j].key != rules[from].key {
      assert rules[from].key != rules[j].key;
    }
  }

  /** With one rule per key, each entry's fate depends only on its own rule and its
      own original entry: a missing attribute or a rule that does not apply does not
      keep the other rules from applying. */
  lemma {:induction false} PassEntry(rules: seq<Rule>, st: PassState, from: nat, key: string)
    requires DistinctKeys(rules) && OverridePass(rules, st, from).Returned?
    ensures Lookup(OverridePass(rules, st, from).value.view, key) == EntryAfter(RuleFor(rules, key, from), Lookup(st.view, key))
    decreases |rules| - from
  {
    if from < |rules| {
      PassEntry(rules, Step(rules[from], st).value, from + 1, key);
      if rules[from].key == key {
        RuleForPastOwnRule(rules, from);
      }
    }
  }

  /** With one rule per key, the pass clones under a key exactly when the key's own
      rule patches its original entry. */
  lemma {:induction false} PassCloned(rules: seq<Rule>, st: PassState, from: nat, key: string)
    requires DistinctKeys(rules) && OverridePass(rules, st, from).Returned?
    ensures key in OverridePass(rules, st, from).value.cloned <==>
              key in st.cloned || (RuleFor(rules, key, from).Some? && RuleAction(RuleFor(rules, key, from).value, Lookup(st.view, key)).Patch?)
    decreases |rules| - from
  {
    if from < |rules| {
      PassCloned(rules, Step(rules[from], st).value, from + 1, key);
      if rules[from].key == key {
        RuleForPastOwnRule(rules, from);
      }
    }
  }

  /** With one rule per key, a missing attribute is logged exactly when its rule
      expects it. */
  lemma {:induction false} PassLogsMissing(rules: seq<Rule>, st: PassState, from: nat, key: string)
    requires DistinctKeys(rules) && OverridePass(rules, st, from).Returned?
    ensures MissingExpected(key) in OverridePass(rules, st, from).value.log <==>
              MissingExpected(key) in st.log ||
              (RuleFor(rules, key, from).Some? && Lookup(st.view, key).None? && RuleFor(rules, key, from).value.isExpected)
    decreases |rules| - from
  {
    if from < |rules| {
      PassLogsMissing(rules, Step(rules[from], st).value, from + 1, key);
      if rules[from].key == key {
        RuleForPastOwnRule(rules, from);
      }
    }
  }

  /** Rules from position `from` on find under their keys in `st.view` what they find
      in `view`. */
  predicate SameTargets(rules: seq<Rule>, st: PassState, from: nat, view: Contents) {
    forall j | from <= j < |rules| :: Lookup(st.view, rules[j].key) == Lookup(view, rules[j].key)
  }

  /** With one rule per key, a step leaves the entries of the later rules' keys alone. */
  lemma StepKeepsTargets(rules: seq<Rule>, st: PassState, from: nat, view: Contents)
    requires DistinctKeys(rules) && from < |rules| && SameTargets(rules, st, from, view) && Step(rules[from], st).Returned?
    ensures SameTargets(rules, Step(rules[from], st).value, from + 1, view)
  {
    forall j | from + 1 <= j < |rules|
      ensures Lookup(Step(rules[from], st).value.view, rules[j].key) == Lookup(view, rules[j].key)
    {
      assert rules[from].key != rules[j].key;
    }
  }

  /** With one rule per key, the pass throws exactly when some rule fails on the entry
      it finds in the original map `view`. */
  lemma {:induction false} PassFailsIff(rules: seq<Rule>, st: PassState, from: nat, view: Contents)
    requires DistinctKeys(rules) && SameTargets(rules, st, from, view)
    ensures OverridePass(rules, st, from).Threw? <==>
              exists i | from <= i < |rules| :: RuleAction(rules[i], Lookup(view, rules[i].key)).Fail?
    decreases |rules| - from
  {
    if from < |rules| && Step(rules[from], st).Returned? {
      StepKeepsTargets(rules, st, from, view);
      PassFailsIff(rules, Step(rules[from], st).value, from + 1, view);
    }
  }

  /** With one rule per key, what a failing pass throws is the failure of the first
      rule that fails on the entry it finds in the original map `view`. */
  lemma {:induction false} PassFirstFailure(rules: seq<Rule>, st: PassState, from: nat, view: Contents)
    requires DistinctKeys(rules) && SameTargets(rules, st, from, view) && OverridePass(rules, st, from).Threw?
    ensures exists i | from <= i < |rules| ::
              && RuleAction(rules[i], Lookup(view, rules[i].key)) == Fail(OverridePass(rules, st, from).failure)
              && forall j | from <= j < i :: !RuleAction(rules[j], Lookup(view, rules[j].key)).Fail?
    decreases |rules| - from
  {
    var failure := OverridePass(rules, st, from).failure;
    if Step(rules[from], st).Threw? {
      assert RuleAction(rules[from], Lookup(view, rules[from].key)) == Fail(failure);
    } else {
      StepKeepsTargets(rules, st, from, view);
      PassFirstFailure(rules, Step(rules[from], st).value, from + 1, view);
      var i :| from + 1 <= i < |rules|
               && RuleAction(rules[i], Lookup(view, rules[i].key)) == Fail(failure)
               && forall j | from + 1 <= j < i :: !RuleAction(rules[j], Lookup(view, rules[j].key)).Fail?;
      assert !RuleAction(rules[from], Lookup(view, rules[from].key)).Fail?;
    }
  }

  /** A pass over a map in which no rule has anything to do changes nothing. */
  lemma {:induction false} PassOnSettledView(rules: seq<Rule>, st: PassState, from: nat)
    requires forall i | from <= i < |rules| ::
               RuleAction(rules[i], Lookup(st.view, rules[i].key)).Absent? || RuleAction(rules[i], Lookup(st.view, rules[i].key)).AlreadySet?
    ensures OverridePass(rules, st, from).Returned?
    ensures OverridePass(rules, st, from).value.view == st.view && OverridePass(rules, st, from).value.cloned == st.cloned
    decreases |rules| - from
  {
    if from < |rules| {
      PassOnSettledView(rules, Step(rules[from], st).value, from + 1);
    }
  }

  /** Re-applying the rules to the map they produced clones nothing and changes no
      entry: every targeted value already equals its override. */
  lemma PassIdempotent(rules: seq<Rule>, view: Contents)
    requires DistinctKeys(rules) && OverridePass(rules, Start(view)).Returned?
    ensures var once := OverridePass(rules, Start(view)).value.view;
            && OverridePass(rules, Start(once)).Returned?
            && OverridePass(rules, Start(once)).value.view == once
            && OverridePass(rules, Start(once)).value.cloned == {}
  {
    var once := OverridePass(rules, Start(view)).value.view;
    PassFailsIff(rules, Start(view), 0, view);
    forall i | 0 <= i < |rules|
      ensures RuleAction(rules[i], Lookup(once, rules[i].key)).Absent? || RuleAction(rules[i], Lookup(once, rules[i].key)).AlreadySet?
    {
      PassEntry(rules, Start(view), 0, rules[i].key);
      RuleForIsTheRule(rules, rules[i].key, 0, i);
      RuleActionMeaning(rules[i], Lookup(view, rules[i].key));
      if RuleAction(rules[i], Lookup(view, rules[i].key)).Patch? {
        RuleActionMeaning(rules[i], Lookup(once, rules[i].key));
      }
    }
    PassOnSettledView(rules, Start(once), 0);
  }

  /** The injection point is idempotent: what it hands back, handed to it again,
      comes back unchanged, whether the first call succeeded or fell back. */
  lemma OverriddenIdempotent(rules: seq<Rule>, view: Contents)
    requires DistinctKeys(rules)
    ensures Overridden(rules, Overridden(rules, view)) == Overridden(rules, view)
  {
    if OverridePass(rules, Start(view)).Returned? {
      PassIdempotent(rules, view);
    }
  }

  /** Hooking the account attributes twice gives the host what hooking them once does. */
  lemma PremiumOverriddenIdempotent(view: Contents)
    ensures Overridden(PremiumOverrides(), Overridden(PremiumOverrides(), view)) == Overridden(PremiumOverrides(), view)
  {
    PremiumKeysDistinct();
    OverriddenIdempotent(PremiumOverrides(), view);
  }

  /** The keys listed in `keys`. */
  function KeySet(keys: seq<string>): set<string>
    decreases |keys|
  {
    if keys == [] then {} else KeySet(keys[..|keys| - 1]) + {keys[|keys| - 1]}
  }

  /** Every listed key is in the set, and the set holds nothing else. */
  lemma {:induction false} KeySetMembers(keys: seq<string>)
    ensures forall i | 0 <= i < |keys| :: keys[i] in KeySet(keys)
    ensures forall k | k in KeySet(keys) :: k in keys
    decreases |keys|
  {
    if keys != [] {
      var init := keys[..|keys| - 1];
      KeySetMembers(init);
      assert forall i | 0 <= i < |init| :: init[i] == keys[i];
    }
  }

  predicate Distinct(keys: seq<string>) {
    forall i, j | 0 <= i < j < |keys| :: keys[i] != keys[j]
  }

  /** An insertion-ordered map from attribute key to attribute object: the map the host
      passes in, iterated in `keys` order, and the LinkedHashMap built from it. */
  class AttrMap {
    var keys: seq<string>
    var entries: map<string, Record?>

    ghost predicate Valid()
      reads this
    {
      entries.Keys == KeySet(keys) && Distinct(keys)
    }

    /** new LinkedHashMap<>(m): the same entries, in m's iteration order. */
    constructor CopyOf(m: AttrMap)
      requires m.Valid()
      ensures Valid() && keys == m.keys && entries == m.entries
    {
      keys := m.keys;
      entries := m.entries;
    }

    /** get: null both for a missing key and for a key mapped to null. */
    function Get(key: string): (r: Record?)
      reads this
      ensures r != null <==> key in entries && entries[key] != null
      ensures r != null ==> r == entries[key]
    {
      if key in entries then entries[key] else null
    }

    /** put: a present key keeps its position, a new key goes last. */
    method Put(key: string, v: Record?)
      requires Valid()
      modifies this
      ensures Valid()
      ensures entries == old(entries)[key := v]
      ensures keys == if key in old(entries) then old(keys) else old(keys) + [key]
    {
      if key !in entries {
        KeySetMembers(keys);
        keys := keys + [key];
        assert keys[..|keys| - 1] == old(keys);
      }
      entries := entries[key := v];
    }
  }

  /** The contents the attribute object `r` has in the current heap (None for null). */
  ghost function EntryView(r: Record?): Option<RecordView>
    reads r
  {
    if r == null then None else Some(r.View())
  }

  /** `entries` maps the keys of `view`, and no other, to attribute objects whose
      contents in the current heap are those `view` records. */
  ghost predicate Mirrors(entries: map<string, Record?>, view: Contents)
    reads entries.Values
  {
    && entries.Keys == view.Keys
    && forall k | k in entries :: view[k] == EntryView(entries[k])
  }

  /** Putting an object under a key changes the contents under that key alone. */
  lemma MirrorsPut(entries: map<string, Record?>, view: Contents, key: string, v: Record?)
    requires Mirrors(entries, view)
    ensures Mirrors(entries[key := v], view[key := EntryView(v)])
  {
  }

  /** The contents of a map's attribute objects, as they are in the current heap. */
  ghost function Snapshot(m: AttrMap): (view: Contents)
    reads m, m.entries.Values
    ensures Mirrors(m.entries, view)
  {
    map k | k in m.entries :: EntryView(m.entries[k])
  }

  /** Every attribute object of `entries` holds one value per declared instance
      field, as every Java object does. */
  ghost predicate AllValid(entries: map<string, Record?>)
    reads entries.Values
  {
    forall k | k in entries && entries[k] != null :: entries[k].Valid()
  }

  /** Lines 127-128 of createOverriddenAttributesMap: a clone of an attribute whose
      value field has been located, with that field set to `x` and every other field
      as in the original, which is not written. */
  method CloneWithValue(attribute: Record, x: Value) returns (r: Outcome<Record>)
    requires attribute.Valid() && Locate(attribute.chain, ValueField).Returned?
    ensures CloneFailure(attribute.chain).Some? ==> r == Threw(CloneFailed(CloneFailure(attribute.chain).value))
    ensures CloneFailure(attribute.chain).None? ==>
              && r.Returned? && fresh(r.value) && r.value.Valid()
              && r.value.View() == WriteField(attribute.View(), ValueField, x).value
  {
    var cloned := ShallowClone(attribute);
    if cloned.Threw? {
      return cloned;
    }
    var clone := cloned.value;
    var written := clone.SetObjectField(ValueField, x);
    assert written.Returned?;
    return Returned(clone);
  }

  /** Lines 116-128 of createOverriddenAttributesMap for the attribute found under the
      rule's key: read its value, and when the value differs from the override, make
      the patched clone. It writes to no object that exists beforehand. It throws
      exactly when the rule fails; otherwise it yields a new object exactly when the
      rule patches, and that object holds the patched contents. */
  method DecideRule(attribute: Record, rule: Rule) returns (r: Outcome<Option<Record>>)
    requires attribute.Valid()
    ensures r.Threw? <==> RuleAction(rule, Some(attribute.View())).Fail?
    ensures r.Threw? ==> r.failure == RuleAction(rule, Some(attribute.View())).failure
    ensures r.Returned? ==> (r.value.Some? <==> RuleAction(rule, Some(attribute.View())).Patch?)
    ensures r.Returned? && r.value.Some? ==>
              && fresh(r.value.value) && r.value.value.Valid()
              && r.value.value.View() == RuleAction(rule, Some(attribute.View())).patched
  {
    var originalValue := attribute.GetObjectField(ValueField);
    if originalValue.Threw? {
      return Threw(originalValue.failure);
    }
    if rule.overrideValue == originalValue.value {
      return Returned(None);
    }
    var cloned := CloneWithValue(attribute, rule.overrideValue);
    if cloned.Threw? {
      return Threw(cloned.failure);
    }
    return Returned(Some(cloned.value));
  }

  /** Line 128 of createOverriddenAttributesMap: `put` of the patched clone under a key
      the copy holds. The contents recorded under that key become the clone's. */
  method PutPatched(result: AttrMap, key: string, clone: Record, ghost view: Contents)
    requires result.Valid() && Mirrors(result.entries, view) && key in result.entries
    modifies result
    ensures result.Valid() && result.keys == old(result.keys)
    ensures result.entries == old(result.entries)[key := clone]
    ensures Mirrors(result.entries, view[key := Some(clone.View())])
  {
    ghost var before := result.entries;
    result.Put(key, clone);
    MirrorsPut(before, view, key, clone);
  }

  /** One pass of the loop of createOverriddenAttributesMap (lines 107-129): rule
      `rule` applied to `result`, whose contents are `st.view`. It writes to `result`
      and to the clone it makes, to nothing else. When the step completes, the entry
      under the rule's key is a new object when the step clones and the same object
      as before otherwise; every other entry is the same object as before. */
  method ApplyRule(result: AttrMap, rule: Rule, ghost st: PassState, ghost given: set<Record?>) returns (r: Outcome<()>, ghost next: PassState, ghost made: Record?)
    requires result.Valid() && Mirrors(result.entries, st.view) && ContentsWellFormed(st.view)
    modifies result
    ensures r.Threw? <==> Step(rule, st).Threw?
    ensures r.Threw? ==> r.failure == Step(rule, st).failure
    ensures r.Returned? ==>
              && next == Step(rule, st).value
              && result.Valid() && Mirrors(result.entries, next.view)
              && result.keys == old(result.keys)
              && (made == null ==> result.entries == old(result.entries) && next.cloned == st.cloned)
              && (made != null ==>
                    && fresh(made) && made !in given && rule.key in old(result.entries)
                    && result.entries == old(result.entries)[rule.key := made]
                    && next.cloned == st.cloned + {rule.key})
  {
    var attribute := result.Get(rule.key);
    assert Lookup(st.view, rule.key) == EntryView(attribute);
    if attribute == null {
      return Returned(()), Step(rule, st).value, null;
    }
    assert attribute.Valid() by {
      assert st.view[rule.key] == Some(attribute.View());
    }
    var decided := DecideRule(attribute, rule);
    if decided.Threw? {
      return Threw(decided.failure), st, null;
    }
    next := Step(rule, st).value;
    if decided.value.None? {
      return Returned(()), next, null;
    }
    var clone := decided.value.value;
    PutPatched(result, rule.key, clone, st.view);
    return Returned(()), next, clone;
  }

  /** The loop of createOverriddenAttributesMap (lines 107-130) over the copy `result`,
      whose contents are `st0.view`. It writes to `result` and to the clones it makes,
      to nothing else. When the pass completes, `result` holds the contents the pass
      computes, with the same keys in the same order; under a key the pass cloned it
      holds a new object, under every other key the object it held before. Otherwise
      it throws what the pass throws. */
  method RunRules(result: AttrMap, rules: seq<Rule>, ghost st0: PassState) returns (r: Outcome<()>, ghost st: PassState)
    requires result.Valid() && Mirrors(result.entries, st0.view) && ContentsWellFormed(st0.view) && st0.cloned == {}
    modifies result
    ensures OverridePass(rules, st0).Threw? ==> r == Threw(OverridePass(rules, st0).failure)
    ensures OverridePass(rules, st0).Returned? ==>
              && r.Returned? && st == OverridePass(rules, st0).value
              && result.Valid() && result.keys == old(result.keys) && Mirrors(result.entries, st.view)
              && (forall k | k in result.entries && k in st.cloned :: result.entries[k] != null && result.entries[k] !in old(result.entries).Values)
              && (forall k | k in result.entries && k in st.cloned :: fresh(result.entries[k]))
              && (forall k | k in result.entries && k !in st.cloned :: result.entries[k] == old(result.entries[k]))
  {
    st := st0;
    ghost var given := result.entries.Values;
    var i := 0;
    while i < |rules|
      invariant 0 <= i <= |rules|
      invariant result.Valid() && ContentsWellFormed(st.view)
      invariant result.keys == old(result.keys)
      invariant Mirrors(result.entries, st.view)
      invariant OverridePass(rules, st, i) == OverridePass(rules, st0)
      invariant given == old(result.entries).Values
      invariant forall k | k in result.entries && k in st.cloned :: result.entries[k] != null && result.entries[k] !in given
      invariant forall k | k in result.entries && k in st.cloned :: fresh(result.entries[k])
      invariant forall k | k in result.entries && k !in st.cloned :: result.entries[k] == old(result.entries[k])
    {
      ghost var prev := st;
      ghost var before := result.entries;
      var applied;
      ghost var made;
      applied, st, made := ApplyRule(result, rules[i], st, given);
      if applied.Threw? {
        return Threw(applied.failure), st;
      }
      ghost var added: set<string> := if made == null then {} else {rules[i].key};
      assert st.cloned == prev.cloned + added;
      forall k | k in result.entries && k in st.cloned
        ensures result.entries[k] != null && result.entries[k] !in given
      {
        if k !in added {
          assert k in prev.cloned && result.entries[k] == before[k];
        }
      }
      forall k | k in result.entries && k in st.cloned
        ensures fresh(result.entries[k])
      {
        if k !in added {
          assert k in prev.cloned && result.entries[k] == before[k];
        }
      }
      StepKeepsWellFormed(rules[i], prev);
      i := i + 1;
    }
    return Returned(()), st;
  }

  /** The try block of createOverriddenAttributesMap, for any rule list. It writes to no
      object it was given. When the pass completes, the result is a new map with the
      original's keys in the original's order, whose contents are those the pass
      computes; an entry under which the pass cloned is a new object, every other
      entry is the very object of the original map. Otherwise it throws what the
      pass throws. */
  method OverrideAll(originalMap: AttrMap, rules: seq<Rule>) returns (r: Outcome<AttrMap>, ghost log: seq<LogEvent>)
    requires originalMap.Valid() && AllValid(originalMap.entries)
    ensures OverridePass(rules, Start(old(Snapshot(originalMap)))).Threw? ==>
              r == Threw(OverridePass(rules, Start(old(Snapshot(originalMap)))).failure)
    ensures OverridePass(rules, Start(old(Snapshot(originalMap)))).Returned? ==>
              var st := OverridePass(rules, Start(old(Snapshot(originalMap)))).value;
              && r.Returned? && fresh(r.value) && r.value.Valid()
              && r.value.keys == originalMap.keys
              && Mirrors(r.value.entries, st.view) && log == st.log
              && (forall k | k in r.value.entries && k in st.cloned :: r.value.entries[k] != null && r.value.entries[k] !in originalMap.entries.Values)
              && (forall k | k in r.value.entries && k in st.cloned :: fresh(r.value.entries[k]))
              && (forall k | k in r.value.entries && k !in st.cloned :: r.value.entries[k] == originalMap.entries[k])
  {
    ghost var contents := Snapshot(originalMap);
    assert ContentsWellFormed(contents) by {
      forall k | k in contents && contents[k].Some? ensures WellFormed(contents[k].value) {
        assert originalMap.entries[k].Valid();
      }
    }
    var result := new AttrMap.CopyOf(originalMap);
    var run;
    ghost var st;
    run, st := RunRules(result, rules, Start(contents));
    if run.Threw? {
      return Threw(run.failure), st.log;
    }
    return Returned(result), st.log;
  }

  /** The try/catch of createOverriddenAttributesMap, failing open on every failure,
      for any rule list. The map it hands back holds the contents Overridden
      computes. When the pass completes it is a new map with the original's keys in
      the original's order, holding a new object exactly under the keys the pass
      cloned and the original's own object under every other key; when the pass
      fails it is the original map object itself. No object the caller passed in is
      written either way. */
  method OverrideFailOpen(originalMap: AttrMap, rules: seq<Rule>) returns (result: AttrMap, ghost log: seq<LogEvent>)
    requires originalMap.Valid() && AllValid(originalMap.entries)
    ensures Mirrors(result.entries, Overridden(rules, old(Snapshot(originalMap))))
    ensures OverridePass(rules, Start(old(Snapshot(originalMap)))).Threw? ==> result == originalMap
    ensures OverridePass(rules, Start(old(Snapshot(originalMap)))).Returned? ==>
              var st := OverridePass(rules, Start(old(Snapshot(originalMap)))).value;
              && fresh(result) && result.Valid() && result.keys == originalMap.keys && log == st.log
              && (forall k | k in result.entries && k in st.cloned :: result.entries[k] != null && result.entries[k] !in originalMap.entries.Values)
              && (forall k | k in result.entries && k in st.cloned :: fresh(result.entries[k]))
              && (forall k | k in result.entries && k !in st.cloned :: result.entries[k] == originalMap.entries[k])
  {
    ghost var contents := Snapshot(originalMap);
    var body;
    body, log := OverrideAll(originalMap, rules);
    result := FailOpen(body, originalMap);
    if body.Threw? {
      assert Mirrors(originalMap.entries, contents);
    }
  }

  /** createOverriddenAttributesMap, failing open on every failure: the rules are
      PREMIUM_OVERRIDES. */
  method CreateOverriddenAttributesMap(originalMap: AttrMap) returns (result: AttrMap, ghost log: seq<LogEvent>)
    requires originalMap.Valid() && AllValid(originalMap.entries)
    ensures Mirrors(result.entries, Overridden(PremiumOverrides(), old(Snapshot(originalMap))))
    ensures OverridePass(PremiumOverrides(), Start(old(Snapshot(originalMap)))).Threw? ==> result == originalMap
    ensures OverridePass(PremiumOverrides(), Start(old(Snapshot(originalMap)))).Returned? ==>
              var st := OverridePass(PremiumOverrides(), Start(old(Snapshot(originalMap)))).value;
              && fresh(result) && result.Valid() && result.keys == originalMap.keys && log == st.log
              && (forall k | k in result.entries && k in st.cloned :: result.entries[k] != null && result.entries[k] !in originalMap.entries.Values)
              && (forall k | k in result.entries && k in st.cloned :: fresh(result.entries[k]))
              && (forall k | k in result.entries && k !in st.cloned :: result.entries[k] == originalMap.entries[k])
  {
    result, log := OverrideFailOpen(originalMap, PremiumOverrides());
  }

  /** createOverriddenAttributesMap as written: `catch (Exception ex)` falls back to the
      original map, but a java.lang.Error raised inside the pass propagates to the
      caller. */
  method CreateOverriddenAttributesMapAsWritten(originalMap: AttrMap) returns (r: Outcome<AttrMap>)
    requires originalMap.Valid() && AllValid(originalMap.entries)
    ensures OverridePass(PremiumOverrides(), Start(old(Snapshot(originalMap)))).Threw? ==>
              r == CatchExceptions(Threw(OverridePass(PremiumOverrides(), Start(old(Snapshot(originalMap)))).failure), originalMap)
    ensures OverridePass(PremiumOverrides(), Start(old(Snapshot(originalMap)))).Returned? ==>
              r.Returned? && fresh(r.value) &&
              Mirrors(r.value.entries, OverridePass(PremiumOverrides(), Start(old(Snapshot(originalMap)))).value.view)
  {
    var body, _ := OverrideAll(originalMap, PremiumOverrides());
    r := CatchExceptions(body, originalMap);
  }

  /** An account attribute whose class declares no `value_` field: XposedHelpers.findField
      raises NoSuchFieldError, an Error that `catch (Exception ex)` does not catch, so
      the injection point as written throws where the fallback to the original map
      was intended. */
  lemma UndeclaredValueFieldEscapes()
    ensures var attribute := RecordView([ClassDecl("AccountAttribute", true, [])], map[]);
            var view: Contents := map["ads" := Some(attribute)];
            && WellFormed(attribute)
            && OverridePass(PremiumOverrides(), Start(view)) == Threw(NoSuchField(ValueField))
            && CatchExceptions(OverridePass(PremiumOverrides(), Start(view)), Start(view)) == Threw(NoSuchField(ValueField))
            && Overridden(PremiumOverrides(), view) == view
  {
    var attribute := RecordView([ClassDecl("AccountAttribute", true, [])], map[]);
    var view: Contents := map["ads" := Some(attribute)];
    assert InstanceSlots(attribute.chain) == {};
    assert FindField(attribute.chain, ValueField) == None;
    assert PremiumOverrides()[0].key == "ads";
  }
}
