/** UnlockPremiumPatch.removeStationString: the Google Assistant URI or URL with every
    `spotify:station:` turned into `spotify:`, by String.replace.
 */
module Station {
  import opened Outcomes

  const StationPrefix: string := "spotify:station:"
  const PlainPrefix: string := "spotify:"

  /** `t` occurs in `s` at position `i`. */
  predicate OccursAt(s: string, t: string, i: nat) {
    i + |t| <= |s| && s[i..i + |t|] == t
  }

  predicate Occurs(s: string, t: string) {
    exists i: nat | i <= |s| :: OccursAt(s, t, i)
  }

  /** String.replace(target, replacement) for a non-empty target: scanning from the
      left, each occurrence of `target` that does not overlap an earlier replaced one
      becomes `replacement`; the replacement text is not scanned again. */
  function ReplaceAll(s: string, target: string, replacement: string): string
    requires |target| > 0
    decreases |s|
  {
    if |s| < |target| then s
    else if s[..|target|] == target then replacement + ReplaceAll(s[|target|..], target, replacement)
    else [s[0]] + ReplaceAll(s[1..], target, replacement)
  }

  /** String.indexOf(target, from): the first position at or after `from` where
      `target` occurs. */
  function IndexOf(s: string, target: string, from: nat): (r: Option<nat>)
    requires |target| > 0
    decreases |s| - from
    ensures r.Some? ==> from <= r.value && r.value + |target| <= |s|
  {
    if from + |target| > |s| then None
    else if OccursAt(s, target, from) then Some(from)
    else IndexOf(s, target, from + 1)
  }

  /** indexOf finds the first occurrence: the target occurs where it points, none lies
      between `from` and there, and none at all when it returns nothing. */
  lemma {:induction false} IndexOfFirst(s: string, target: string, from: nat)
    requires |target| > 0
    ensures IndexOf(s, target, from).Some? ==> OccursAt(s, target, IndexOf(s, target, from).value)
    ensures IndexOf(s, target, from).Some? ==> forall i: nat | from <= i < IndexOf(s, target, from).value :: !OccursAt(s, target, i)
    ensures IndexOf(s, target, from).None? ==> forall i: nat | from <= i :: !OccursAt(s, target, i)
    decreases |s| - from
  {
    if from + |target| <= |s| && !OccursAt(s, target, from) {
      IndexOfFirst(s, target, from + 1);
    }
  }

  /** The replacement as an indexOf loop performs it: copy up to the next occurrence,
      emit the replacement, resume after the occurrence. */
  function ReplaceFrom(s: string, target: string, replacement: string, from: nat): string
    requires |target| > 0 && from <= |s|
    decreases |s| - from
  {
    match IndexOf(s, target, from)
    case None => s[from..]
    case Some(i) => s[from..i] + (replacement + ReplaceFrom(s, target, replacement, i + |target|))
  }

  /** Where indexOf resumes past a position that does not start an occurrence, the
      loop copies that one character. */
  lemma ReplaceFromSkip(s: string, target: string, replacement: string, from: nat)
    requires |target| > 0 && from < |s| && !OccursAt(s, target, from)
    ensures ReplaceFrom(s, target, replacement, from) == [s[from]] + ReplaceFrom(s, target, replacement, from + 1)
  {
    var next := IndexOf(s, target, from + 1);
    assert IndexOf(s, target, from) == next;
    match next
    case None =>
      assert s[from..] == [s[from]] + s[from + 1..];
    case Some(i) =>
      var rest := replacement + ReplaceFrom(s, target, replacement, i + |target|);
      assert ReplaceFrom(s, target, replacement, from) == s[from..i] + rest;
      assert ReplaceFrom(s, target, replacement, from + 1) == s[from + 1..i] + rest;
      assert s[from..i] == [s[from]] + s[from + 1..i];
  }

  /** Where indexOf finds an occurrence right at `from`, the loop emits the
      replacement and resumes past it. */
  lemma ReplaceFromMatch(s: string, target: string, replacement: string, from: nat)
    requires |target| > 0 && OccursAt(s, target, from)
    ensures ReplaceFrom(s, target, replacement, from) == replacement + ReplaceFrom(s, target, replacement, from + |target|)
  {
    assert IndexOf(s, target, from) == Some(from);
    assert s[from..from] == [];
  }

  /** The scan over the text from position `from` on takes the same step as the
      indexOf loop standing at `from`. */
  lemma ReplaceAllSuffixStep(s: string, target: string, replacement: string, from: nat)
    requires |target| > 0 && from + |target| <= |s|
    ensures OccursAt(s, target, from) ==>
              ReplaceAll(s[from..], target, replacement) == replacement + ReplaceAll(s[from + |target|..], target, replacement)
    ensures !OccursAt(s, target, from) ==>
              ReplaceAll(s[from..], target, replacement) == [s[from]] + ReplaceAll(s[from + 1..], target, replacement)
  {
    var rest := s[from..];
    assert rest[..|target|] == s[from..from + |target|];
    assert rest[|target|..] == s[from + |target|..];
    assert rest[1..] == s[from + 1..];
  }

  /** The left-to-right scan and the indexOf loop produce the same string. */
  lemma {:induction false} ReplaceAllIsIndexOfLoop(s: string, target: string, replacement: string, from: nat)
    requires |target| > 0 && from <= |s|
    ensures ReplaceAll(s[from..], target, replacement) == ReplaceFrom(s, target, replacement, from)
    decreases |s| - from
  {
    if from + |target| > |s| {
      assert IndexOf(s, target, from).None?;
    } else if OccursAt(s, target, from) {
      ReplaceAllIsIndexOfLoop(s, target, replacement, from + |target|);
      ReplaceAllSuffixStep(s, target, replacement, from);
      ReplaceFromMatch(s, target, replacement, from);
    } else {
      ReplaceAllIsIndexOfLoop(s, target, replacement, from + 1);
      ReplaceAllSuffixStep(s, target, replacement, from);
      ReplaceFromSkip(s, target, replacement, from);
    }
  }

  /** Past the first character, the occurrences of a text are those of its tail. */
  lemma OccursInTail(s: string, target: string, i: nat)
    requires 0 < i <= |s|
    ensures OccursAt(s, target, i) <==> OccursAt(s[1..], target, i - 1)
  {
    if i + |target| <= |s| {
      assert s[1..][i - 1..i - 1 + |target|] == s[i..i + |target|];
    }
  }

  /** A text without an occurrence is returned as it is; when the replacement is
      shorter than the target, the converse holds too and the text never grows. */
  lemma {:induction false} ReplaceAllUnchangedIff(s: string, target: string, replacement: string)
    requires 0 < |target|
    ensures !Occurs(s, target) ==> ReplaceAll(s, target, replacement) == s
    ensures |replacement| < |target| ==>
              && |ReplaceAll(s, target, replacement)| <= |s|
              && (ReplaceAll(s, target, replacement) == s <==> !Occurs(s, target))
    decreases |s|
  {
    if |s| < |target| {
      forall i: nat ensures !OccursAt(s, target, i) {
      }
    } else if s[..|target|] == target {
      assert OccursAt(s, target, 0);
      ReplaceAllUnchangedIff(s[|target|..], target, replacement);
    } else {
      var tail := s[1..];
      ReplaceAllUnchangedIff(tail, target, replacement);
      assert Occurs(s, target) <==> Occurs(tail, target) by {
        if Occurs(s, target) {
          var i: nat :| i <= |s| && OccursAt(s, target, i);
          OccursInTail(s, target, i);
        }
        if Occurs(tail, target) {
          var i: nat :| i <= |tail| && OccursAt(tail, target, i);
          OccursInTail(s, target, i + 1);
        }
      }
      assert s == [s[0]] + tail;
    }
  }

  /** removeStationString. `None` is a null argument: replace raises a
      NullPointerException, the handler returns the argument, so null comes back. */
  function RemoveStationString(spotifyUriOrUrl: Option<string>): (r: Option<string>)
    ensures r.None? <==> spotifyUriOrUrl.None?
    ensures r.Some? ==> r.value == ReplaceFrom(spotifyUriOrUrl.value, StationPrefix, PlainPrefix, 0)
    ensures r.Some? ==> |r.value| <= |spotifyUriOrUrl.value|
    ensures r.Some? ==> (r.value == spotifyUriOrUrl.value <==> !Occurs(spotifyUriOrUrl.value, StationPrefix))
  {
    match spotifyUriOrUrl
    case None => None
    case Some(s) =>
      ReplaceAllIsIndexOfLoop(s, StationPrefix, PlainPrefix, 0);
      assert s[0..] == s;
      ReplaceAllUnchangedIff(s, StationPrefix, PlainPrefix);
      Some(ReplaceAll(s, StationPrefix, PlainPrefix))
  }

  /** Each station URI loses its station marker once: the output of one pass may still
      hold the marker, for the replacement is not scanned again. */
  lemma RemoveStationStringIsSinglePass()
    ensures RemoveStationString(Some("spotify:station:station:abc")) == Some("spotify:station:abc")
    ensures RemoveStationString(Some("spotify:station:abc")) == Some("spotify:abc")
  {
    var a := "spotify:station:station:abc";
    assert a[..|StationPrefix|] == StationPrefix;
    assert a[|StationPrefix|..] == "station:abc";
    assert ReplaceAll(a, StationPrefix, PlainPrefix) == PlainPrefix + "station:abc";
    assert PlainPrefix + "station:abc" == "spotify:station:abc";
    var b := "spotify:station:abc";
    assert b[..|StationPrefix|] == StationPrefix;
    assert b[|StationPrefix|..] == "abc";
    assert ReplaceAll(b, StationPrefix, PlainPrefix) == PlainPrefix + "abc";
    assert PlainPrefix + "abc" == "spotify:abc";
  }
}
