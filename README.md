# UnlockPremiumPatch, non-destructive rewriting core

This project models the Spotify extension's `UnlockPremiumPatch` injection points that
rewrite what the app receives without touching the objects the app gave them:

- **createOverriddenAttributesMap** copies the account-attributes map and walks the
  fixed list PREMIUM_OVERRIDES. For every attribute present whose `value_` differs
  from the rule's override value, it puts a patched shallow clone into the copy. On
  failure it falls back to the original map.
- **shallowCloneObject** allocates an object of the same runtime class without running
  a constructor. It copies every instance field of the class and of each superclass.
- **filterSections**, with its two instances **filterHomeSections** and
  **filterBrowseSections**, builds a new list of the sections whose feature type is
  not in a reject list. On failure it falls back to the input list.
- **removeStationString** turns every `spotify:station:` in a Google Assistant URI into
  `spotify:`.

Modules:

- `Outcomes` (outcomes.dfy) makes Java's exceptional control flow explicit. A block
  returns or throws, and `catch (Exception ex)` does not catch a `java.lang.Error`.
- `Reflect` (reflect.dfy) models host objects: a class chain plus one value per
  instance field. `Record` is a heap object with reflective reads and writes, as
  XposedHelpers provides them.
- `Clone` (clone.dfy) holds the clone loop over the class chain.
- `Attributes` (attributes.dfy) holds the override rules, the LinkedHashMap the pass
  builds, and the pass itself. The pass is specified by a function over the map's
  contents (`OverridePass`) and implemented by methods that allocate clones and `put`
  them.
- `Sections` (sections.dfy) holds the section filter, a loop proved against the
  function `Filtered`.
- `Station` (station.dfy) holds String.replace and the station-marker removal.

Failure handling, split by member:

- Both catch clauses (lines 133-136 and 215-218) return the input, but
  `catch (Exception ex)` does not catch a `java.lang.Error` (see "## Findings").
- The methods named after the injection points fall back to the input on every
  failure, through `FailOpen`. These are `Attributes.CreateOverriddenAttributesMap`,
  `Sections.FilterSections`, `Sections.FilterHomeSections` and
  `Sections.FilterBrowseSections`. This is the evidently intended behaviour, not the
  code's behaviour for an Error. For example, for a home section whose class declares
  no `featureTypeCase_`, `FilterHomeSections` gives back the input list, while the code
  lets the NoSuchFieldError through.
- Only `Attributes.CreateOverriddenAttributesMapAsWritten` and
  `Sections.FilterSectionsAsWritten` model the catch clauses as written, through
  `CatchExceptions`.
- The unsynchronised lazy `volatile` initialisation of the Unsafe handle (lines
  144-155) is left out.

## Model

| member | source | states |
|---|---|---|
| Outcomes.CatchExceptions | app/src/main/java/app/revanced/extension/spotify/misc/UnlockPremiumPatch.java:133-136 | `catch (Exception ex)` turns a thrown Exception into the original input; an Error still propagates, and a normal return passes through |
| Outcomes.FailOpen | app/src/main/java/app/revanced/extension/spotify/misc/UnlockPremiumPatch.java:215-218 | the fail-open fallback: any failure yields the original input, a normal return its value |
| Outcomes.CatchExceptionsIsFailOpenWithoutErrors | app/src/main/java/app/revanced/extension/spotify/misc/UnlockPremiumPatch.java:133-136 | the catch as written and the fail-open policy agree exactly when the body throws no Error |
| Reflect.ZeroSlots | app/src/main/java/app/revanced/extension/spotify/misc/UnlockPremiumPatch.java:158 | a newly allocated object has exactly one slot per instance field of its chain, each holding the zero value |
| Reflect.FindField | app/src/main/java/app/revanced/extension/spotify/misc/UnlockPremiumPatch.java:116 | field lookup finds the nearest level of the chain declaring an instance field of that name, no nearer level declares it, and nothing is found exactly when no level declares it |
| Reflect.Locate | app/src/main/java/app/revanced/extension/spotify/misc/UnlockPremiumPatch.java:116 | locating a field yields an instance-field slot of that name, or NoSuchFieldError / an inaccessible-field failure; it is an Error exactly when no level declares the name |
| Reflect.ReadField | app/src/main/java/app/revanced/extension/spotify/misc/UnlockPremiumPatch.java:116 | getObjectField succeeds exactly when the field is located, fails with the lookup's failure, and returns the located slot's value |
| Reflect.WriteField | app/src/main/java/app/revanced/extension/spotify/misc/UnlockPremiumPatch.java:128 | setObjectField succeeds exactly when the field is located; afterwards the field reads back as the written value, every other slot and the chain are unchanged, and well-formedness is kept |
| Reflect.ReadIntField | app/src/main/java/app/revanced/extension/spotify/misc/UnlockPremiumPatch.java:229 | getIntField returns exactly when the field is read and holds an int, and returns that int; a failed read fails with the read's failure, and a value that is not an int fails with NotAnInt, an Exception |
| Reflect.Record.Allocate | app/src/main/java/app/revanced/extension/spotify/misc/UnlockPremiumPatch.java:158 | a new object of the given chain with every instance field at its zero value |
| Reflect.Record.SetObjectField | app/src/main/java/app/revanced/extension/spotify/misc/UnlockPremiumPatch.java:128 | writes this object alone: its new contents are WriteField of the old ones, and a failed write leaves it unchanged |
| Clone.FirstInaccessibleSound | app/src/main/java/app/revanced/extension/spotify/misc/UnlockPremiumPatch.java:161-169 | the copy loop meets a field it cannot open exactly when the rest of the ancestry declares one, and the one it reports is such a field |
| Clone.CloneFailureIff | app/src/main/java/app/revanced/extension/spotify/misc/UnlockPremiumPatch.java:147-175 | cloning fails exactly when the runtime class cannot be allocated or some instance field of the ancestry cannot be opened |
| Clone.DeclaredBeforeAll | app/src/main/java/app/revanced/extension/spotify/misc/UnlockPremiumPatch.java:163-164 | the fields the inner loop has passed are exactly the instance fields among the first `j` declared |
| Clone.AllocateInstance | app/src/main/java/app/revanced/extension/spotify/misc/UnlockPremiumPatch.java:157-158 | allocation succeeds exactly for an allocatable runtime class, returning a new object of that chain with zeroed fields, and otherwise fails naming the class |
| Clone.CopyLevel | app/src/main/java/app/revanced/extension/spotify/misc/UnlockPremiumPatch.java:163-167 | the inner loop copies each instance field of one level from original to clone, writing the clone alone, or stops at exactly the first field of that level it cannot open |
| Clone.ShallowClone | app/src/main/java/app/revanced/extension/spotify/misc/UnlockPremiumPatch.java:147-175 | on success a new object with the original's chain and the same value in every instance field, the original unwritten; otherwise no object, only the wrapped cause |
| Attributes.PremiumOverrides | app/src/main/java/app/revanced/extension/spotify/misc/UnlockPremiumPatch.java:52-77 | ten rules, none with a null override value, all expected except the last two |
| Attributes.PremiumKeysDistinct | app/src/main/java/app/revanced/extension/spotify/misc/UnlockPremiumPatch.java:52-77 | no two premium overrides share a key, and exactly `can_use_superbird` and `tablet-free` are not expected |
| Attributes.RuleFor | app/src/main/java/app/revanced/extension/spotify/misc/UnlockPremiumPatch.java:106-107 | the rule found for a key has that key, and none is found exactly when no remaining rule has it |
| Attributes.RuleForIsTheRule | app/src/main/java/app/revanced/extension/spotify/misc/UnlockPremiumPatch.java:106-107 | with distinct keys, the rule found for a key is the one rule that has it |
| Attributes.RuleActionMeaning | app/src/main/java/app/revanced/extension/spotify/misc/UnlockPremiumPatch.java:107-128 | a rule skips exactly a missing or null attribute and one whose value equals the override; it patches exactly a differing, clonable attribute into a same-class copy whose value is the override and whose other fields are the original's; otherwise it fails with the read's or the clone's failure |
| Attributes.Step | app/src/main/java/app/revanced/extension/spotify/misc/UnlockPremiumPatch.java:107-129 | one iteration throws exactly when its rule fails, and never changes the map's key set |
| Attributes.StepKeepsWellFormed | app/src/main/java/app/revanced/extension/spotify/misc/UnlockPremiumPatch.java:127-129 | a step puts in only well-formed patched copies |
| Attributes.PassKeepsKeys | app/src/main/java/app/revanced/extension/spotify/misc/UnlockPremiumPatch.java:104-129 | a completed pass has exactly the input's keys, and clones only under keys that were there |
| Attributes.PassEntry | app/src/main/java/app/revanced/extension/spotify/misc/UnlockPremiumPatch.java:106-130 | with distinct keys, each entry ends up as its own rule makes it from its original entry, so a missing or already-set attribute does not stop the other rules |
| Attributes.PassCloned | app/src/main/java/app/revanced/extension/spotify/misc/UnlockPremiumPatch.java:118-129 | with distinct keys, a key gets a clone exactly when its rule patches its original entry |
| Attributes.PassLogsMissing | app/src/main/java/app/revanced/extension/spotify/misc/UnlockPremiumPatch.java:109-114 | with distinct keys, a missing attribute is logged exactly when its rule expects it |
| Attributes.PassFailsIff | app/src/main/java/app/revanced/extension/spotify/misc/UnlockPremiumPatch.java:106-130 | with distinct keys, the pass throws exactly when some rule fails on the entry it finds in the original map |
| Attributes.PassFirstFailure | app/src/main/java/app/revanced/extension/spotify/misc/UnlockPremiumPatch.java:106-130 | a failing pass throws the failure of the first rule that fails on the original map |
| Attributes.PassOnSettledView | app/src/main/java/app/revanced/extension/spotify/misc/UnlockPremiumPatch.java:118-119 | when no rule has anything to patch, the pass completes, changes no entry and clones nothing |
| Attributes.PassIdempotent | app/src/main/java/app/revanced/extension/spotify/misc/UnlockPremiumPatch.java:118-119 | re-running the rules on the map they produced completes, clones nothing and changes no entry |
| Attributes.OverriddenIdempotent | app/src/main/java/app/revanced/extension/spotify/misc/UnlockPremiumPatch.java:102-137 | with distinct keys, what the injection point hands back, handed to it again, comes back unchanged |
| Attributes.PremiumOverriddenIdempotent | app/src/main/java/app/revanced/extension/spotify/misc/UnlockPremiumPatch.java:102-137 | hooking the account attributes twice with PREMIUM_OVERRIDES gives what hooking them once gives |
| Attributes.AttrMap.CopyOf | app/src/main/java/app/revanced/extension/spotify/misc/UnlockPremiumPatch.java:104 | a new map with the same entries in the same iteration order |
| Attributes.AttrMap.Get | app/src/main/java/app/revanced/extension/spotify/misc/UnlockPremiumPatch.java:107 | null exactly for a missing key or a null value, otherwise the mapped object |
| Attributes.AttrMap.Put | app/src/main/java/app/revanced/extension/spotify/misc/UnlockPremiumPatch.java:129 | the key now maps to the value and no other entry changes; a present key keeps its position, a new key goes last |
| Attributes.CloneWithValue | app/src/main/java/app/revanced/extension/spotify/misc/UnlockPremiumPatch.java:127-128 | either the clone's wrapped failure, or a new object whose contents are the attribute's with `value_` set to the override |
| Attributes.DecideRule | app/src/main/java/app/revanced/extension/spotify/misc/UnlockPremiumPatch.java:116-128 | throws exactly when the rule fails, with its failure; yields a new object exactly when the rule patches, holding the patched contents |
| Attributes.PutPatched | app/src/main/java/app/revanced/extension/spotify/misc/UnlockPremiumPatch.java:129 | `put` of the clone under a present key: same keys and order, that entry replaced, the recorded contents updated under that key alone |
| Attributes.ApplyRule | app/src/main/java/app/revanced/extension/spotify/misc/UnlockPremiumPatch.java:107-129 | one iteration on the heap performs Step: it throws what Step throws, otherwise the map mirrors Step's result with the same keys, changed at most under the rule's key, and then to a new object |
| Attributes.RunRules | app/src/main/java/app/revanced/extension/spotify/misc/UnlockPremiumPatch.java:106-130 | the loop performs OverridePass: it throws its failure, or the map mirrors its result, keeps keys and order, holds newly allocated objects (none of those it held before) under the cloned keys and the same objects elsewhere |
| Attributes.OverrideAll | app/src/main/java/app/revanced/extension/spotify/misc/UnlockPremiumPatch.java:103-132 | the try block: a new map with the original's keys in order, whose contents are those of OverridePass, whose cloned entries are newly allocated objects, none of the original's, and whose other entries are the original's objects; otherwise it throws the pass's failure; no object passed in is written |
| Attributes.OverrideFailOpen | app/src/main/java/app/revanced/extension/spotify/misc/UnlockPremiumPatch.java:102-137 | the map handed back holds the contents Overridden computes: a new map as above when the pass completes, the original map object itself when it fails |
| Attributes.CreateOverriddenAttributesMap | app/src/main/java/app/revanced/extension/spotify/misc/UnlockPremiumPatch.java:102-137 | OverrideFailOpen with PREMIUM_OVERRIDES: it falls back on every failure, Errors included |
| Attributes.CreateOverriddenAttributesMapAsWritten | app/src/main/java/app/revanced/extension/spotify/misc/UnlockPremiumPatch.java:133-136 | the method as written: a failing pass yields the original map unless its failure is an Error, which propagates |
| Attributes.UndeclaredValueFieldEscapes | app/src/main/java/app/revanced/extension/spotify/misc/UnlockPremiumPatch.java:133-136 | an `ads` attribute whose class declares no `value_` makes the pass throw NoSuchFieldError, which the catch as written lets through, while the fail-open result is the original map |
| Sections.FilteredKeepsExactly | app/src/main/java/app/revanced/extension/spotify/misc/UnlockPremiumPatch.java:205-214 | a completed filter read every tag and kept, as an order-preserving subsequence, exactly the sections whose tag is not rejected |
| Sections.FilteredDropsRejected | app/src/main/java/app/revanced/extension/spotify/misc/UnlockPremiumPatch.java:206-212 | a completed filter drops exactly one section per rejected position |
| Sections.FilteredFailsIff | app/src/main/java/app/revanced/extension/spotify/misc/UnlockPremiumPatch.java:206-207 | the filter fails exactly when the extractor fails on some section, and with the failure of the first such section |
| Sections.FilteredPrefixFails | app/src/main/java/app/revanced/extension/spotify/misc/UnlockPremiumPatch.java:206-207 | once a prefix fails, the whole list fails the same way |
| Sections.KeepSections | app/src/main/java/app/revanced/extension/spotify/misc/UnlockPremiumPatch.java:204-214 | the appending loop computes Filtered, returning at the first extractor failure |
| Sections.FilterSections | app/src/main/java/app/revanced/extension/spotify/misc/UnlockPremiumPatch.java:199-219 | filterSections failing open on every failure, Errors included: the filtered list when filtering completes, the input list itself when it fails |
| Sections.FilterSectionsAsWritten | app/src/main/java/app/revanced/extension/spotify/misc/UnlockPremiumPatch.java:215-218 | the method as written: an extractor Error propagates instead of falling back |
| Sections.FilterHomeSections | app/src/main/java/app/revanced/extension/spotify/misc/UnlockPremiumPatch.java:225-232 | the fail-open FilterSections with the `featureTypeCase_` extractor and the home reject list |
| Sections.FilterBrowseSections | app/src/main/java/app/revanced/extension/spotify/misc/UnlockPremiumPatch.java:238-245 | the fail-open FilterSections with the `sectionTypeCase_` extractor and the browse reject list |
| Sections.UndeclaredFeatureTypeEscapes | app/src/main/java/app/revanced/extension/spotify/misc/UnlockPremiumPatch.java:215-218 | a home section without `featureTypeCase_` makes the filter throw NoSuchFieldError, which the catch as written lets through |
| Station.IndexOf | app/src/main/java/app/revanced/extension/spotify/misc/UnlockPremiumPatch.java:183 | String.indexOf returns a position at or after the start where the whole target fits |
| Station.IndexOfFirst | app/src/main/java/app/revanced/extension/spotify/misc/UnlockPremiumPatch.java:183 | that position holds an occurrence and no earlier one does; nothing is returned exactly when no occurrence follows |
| Station.ReplaceAllIsIndexOfLoop | app/src/main/java/app/revanced/extension/spotify/misc/UnlockPremiumPatch.java:183 | the left-to-right replacement equals String.replace's indexOf loop |
| Station.ReplaceAllUnchangedIff | app/src/main/java/app/revanced/extension/spotify/misc/UnlockPremiumPatch.java:183 | a text without an occurrence is unchanged; with a shorter replacement the text never grows and is unchanged exactly when it has no occurrence |
| Station.RemoveStationString | app/src/main/java/app/revanced/extension/spotify/misc/UnlockPremiumPatch.java:180-188 | null gives null; otherwise the indexOf-loop replacement of `spotify:station:` by `spotify:`, no longer than the input and equal to it exactly when it holds no `spotify:station:` |
| Station.RemoveStationStringIsSinglePass | app/src/main/java/app/revanced/extension/spotify/misc/UnlockPremiumPatch.java:183 | one call removes each marker once: `spotify:station:station:abc` becomes `spotify:station:abc` |

## Left out

- Static fields and field types: a field is looked up by name among the instance fields only, and values are untyped.
- The lookup of `sun.misc.Unsafe`, its lazy `volatile` initialisation and the race on it (lines 144-155): allocation is Dafny `new` behind an `allocatable` flag of the runtime class.
- The wrapping of a failed allocation in InvocationTargetException, and ClassNotFoundException from `Class.forName`: both are Exceptions, handled as one clone failure.
- Logger output. The override pass keeps a ghost log of its two diagnostics; the filter's and the station method's messages are not recorded.
- A null map, a null `sections` list or a null section: the inputs are well-formed maps and lists of section values. A null map entry is modelled.
- List and section identity beyond a `Section`'s `identity` number: the filter only reads sections, so they are values.
- String.replace with an empty target: the only target used, `spotify:station:`, is non-empty.
- The values of REMOVED_HOME_SECTIONS and REMOVED_BROWSE_SECTIONS (lines 83-94): they live in generated protobuf classes that are not part of this model, so the reject lists are parameters.
- The Kotlin hook installation that calls these injection points is not part of this model.
- Every attribute object is taken to hold one value per instance field of its class (a precondition on the map-level methods), as every Java object does.

## Findings

| source | as written | input that shows it | evidently intended | confidence | as-written member | corrected member |
|---|---|---|---|---|---|---|
| app/src/main/java/app/revanced/extension/spotify/misc/UnlockPremiumPatch.java:133-136 | `catch (Exception ex)` around the pass, while XposedHelpers.findField raises NoSuchFieldError, a `java.lang.Error` | a map whose `ads` attribute's class declares no `value_` field | any failure of the pass falls back to the original map | medium; not executed; relies on XposedHelpers raising NoSuchFieldError, which is not part of this model | Attributes.CreateOverriddenAttributesMapAsWritten, Attributes.UndeclaredValueFieldEscapes | Attributes.CreateOverriddenAttributesMap |
| app/src/main/java/app/revanced/extension/spotify/misc/UnlockPremiumPatch.java:215-218 | `catch (Exception ex)` around the filter, while getIntField on a missing field raises NoSuchFieldError | a home section whose class declares no `featureTypeCase_` field | any failure of the filter falls back to the input list | medium; not executed; relies on XposedHelpers raising NoSuchFieldError, which is not part of this model | Sections.FilterSectionsAsWritten, Sections.UndeclaredFeatureTypeEscapes | Sections.FilterSections |
