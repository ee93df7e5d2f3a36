/** The section filter of UnlockPremiumPatch: filterSections builds a new list of the
    sections whose feature type id is not in a reject list, and filterHomeSections and
    filterBrowseSections apply it to the home and browse pages.
 */
module Sections {
  import opened Outcomes
  import opened Reflect

  /** `a` is `b` with some elements left out, the rest in their original order. */
  predicate IsSubsequence<T(==)>(a: seq<T>, b: seq<T>)
    decreases |b|
  {
    if a == [] then true
    else if b == [] then false
    else (a[|a| - 1] == b[|b| - 1] && IsSubsequence(a[..|a| - 1], b[..|b| - 1]))
         || IsSubsequence(a, b[..|b| - 1])
  }

  /** The positions of the sections whose tag is in the reject list. */
  function RejectedPositions<T>(sections: seq<T>, tagOf: T -> Outcome<int>, idsToRemove: seq<int>): set<nat> {
    set i: nat | i < |sections| && tagOf(sections[i]).Returned? && tagOf(sections[i]).value in idsToRemove
  }

  /** The try block of filterSections over `sections`: the sections in order whose tag
      is not in `idsToRemove`, or the first failure of the tag extractor. */
  function Filtered<T>(sections: seq<T>, tagOf: T -> Outcome<int>, idsToRemove: seq<int>): Outcome<seq<T>>
    decreases |sections|
  {
    if sections == [] then Returned([])
    else
      var last := sections[|sections| - 1];
      match Filtered(sections[..|sections| - 1], tagOf, idsToRemove)
      case Threw(f) => Threw(f)
      case Returned(kept) =>
        match tagOf(last)
        case Threw(f) => Threw(f)
        case Returned(tag) => Returned(if tag in idsToRemove then kept else kept + [last])
  }

  /** When filtering completes, every tag was read, and it keeps exactly the sections
      whose tag is not rejected, as an order-preserving subsequence. */
  lemma {:induction false} FilteredKeepsExactly<T>(sections: seq<T>, tagOf: T -> Outcome<int>, idsToRemove: seq<int>)
    requires Filtered(sections, tagOf, idsToRemove).Returned?
    ensures forall i | 0 <= i < |sections| :: tagOf(sections[i]).Returned?
    ensures var kept := Filtered(sections, tagOf, idsToRemove).value;
            && IsSubsequence(kept, sections)
            && (forall x | x in kept :: x in sections && tagOf(x).Returned? && tagOf(x).value !in idsToRemove)
            && (forall x | x in sections && tagOf(x).Returned? && tagOf(x).value !in idsToRemove :: x in kept)
    decreases |sections|
  {
    if sections != [] {
      var n := |sections| - 1;
      var init, last := sections[..n], sections[n];
      assert sections == init + [last];
      FilteredKeepsExactly(init, tagOf, idsToRemove);
      var kept := Filtered(init, tagOf, idsToRemove).value;
      if tagOf(last).value in idsToRemove {
        assert IsSubsequence(kept, sections) by {
          assert sections[..n] == init;
        }
      } else {
        var kept' := kept + [last];
        assert kept'[..|kept'| - 1] == kept;
        assert IsSubsequence(kept', sections);
      }
    }
  }

  /** When filtering completes, it drops one section per rejected position. */
  lemma {:induction false} FilteredDropsRejected<T>(sections: seq<T>, tagOf: T -> Outcome<int>, idsToRemove: seq<int>)
    requires Filtered(sections, tagOf, idsToRemove).Returned?
    ensures |Filtered(sections, tagOf, idsToRemove).value| == |sections| - |RejectedPositions(sections, tagOf, idsToRemove)|
    decreases |sections|
  {
    if sections == [] {
      assert RejectedPositions(sections, tagOf, idsToRemove) == {};
    } else {
      var n := |sections| - 1;
      var init := sections[..n];
      FilteredDropsRejected(init, tagOf, idsToRemove);
      var before := RejectedPositions(init, tagOf, idsToRemove);
      var after := RejectedPositions(sections, tagOf, idsToRemove);
      assert forall i | 0 <= i < n :: init[i] == sections[i];
      if tagOf(sections[n]).value in idsToRemove {
        assert after == before + {n};
      } else {
        assert after == before;
      }
    }
  }

  /** Filtering fails exactly when the extractor fails on some section, and it fails
      with the extractor's failure on the first such section. */
  lemma {:induction false} FilteredFailsIff<T>(sections: seq<T>, tagOf: T -> Outcome<int>, idsToRemove: seq<int>)
    ensures Filtered(sections, tagOf, idsToRemove).Threw? <==> exists i | 0 <= i < |sections| :: tagOf(sections[i]).Threw?
    ensures Filtered(sections, tagOf, idsToRemove).Threw? ==>
              exists i | 0 <= i < |sections| ::
                && tagOf(sections[i]) == Threw(Filtered(sections, tagOf, idsToRemove).failure)
                && forall j | 0 <= j < i :: tagOf(sections[j]).Returned?
    decreases |sections|
  {
    if sections != [] {
      var n := |sections| - 1;
      var init := sections[..n];
      FilteredFailsIff(init, tagOf, idsToRemove);
      assert forall i | 0 <= i < n :: init[i] == sections[i];
    }
  }

  /** Once a prefix fails, the whole list fails with the same failure. */
  lemma {:induction false} FilteredPrefixFails<T>(sections: seq<T>, k: nat, tagOf: T -> Outcome<int>, idsToRemove: seq<int>)
    requires k <= |sections| && Filtered(sections[..k], tagOf, idsToRemove).Threw?
    ensures Filtered(sections, tagOf, idsToRemove) == Filtered(sections[..k], tagOf, idsToRemove)
    decreases |sections| - k
  {
    if k < |sections| {
      var longer := sections[..k + 1];
      assert longer[..k] == sections[..k];
      FilteredPrefixFails(sections, k + 1, tagOf, idsToRemove);
    } else {
      assert sections[..k] == sections;
    }
  }

  /** The try block of filterSections: a new list, appended to section by section.
      The input is a value and is not written. */
  method KeepSections<T>(sections: seq<T>, tagOf: T -> Outcome<int>, idsToRemove: seq<int>) returns (r: Outcome<seq<T>>)
    ensures r == Filtered(sections, tagOf, idsToRemove)
  {
    var filtered: seq<T> := [];
    for i := 0 to |sections|
      invariant Filtered(sections[..i], tagOf, idsToRemove) == Returned(filtered)
    {
      var section := sections[i];
      assert sections[..i + 1][..i] == sections[..i];
      var featureTypeId := tagOf(section);
      if featureTypeId.Threw? {
        FilteredPrefixFails(sections, i + 1, tagOf, idsToRemove);
        return Threw(featureTypeId.failure);
      }
      if featureTypeId.value !in idsToRemove {
        filtered := filtered + [section];
      }
    }
    assert sections[..|sections|] == sections;
    return Returned(filtered);
  }

  /** filterSections, failing open on every failure: the kept sections, or the input
      list itself when the extractor fails. */
  method FilterSections<T>(sections: seq<T>, tagOf: T -> Outcome<int>, idsToRemove: seq<int>) returns (r: seq<T>)
    ensures Filtered(sections, tagOf, idsToRemove).Returned? ==> r == Filtered(sections, tagOf, idsToRemove).value
    ensures Filtered(sections, tagOf, idsToRemove).Threw? ==> r == sections
  {
    var body := KeepSections(sections, tagOf, idsToRemove);
    r := FailOpen(body, sections);
  }

  /** filterSections as written: `catch (Exception ex)` falls back to the input list,
      but an Error raised by the extractor propagates. */
  method FilterSectionsAsWritten<T>(sections: seq<T>, tagOf: T -> Outcome<int>, idsToRemove: seq<int>) returns (r: Outcome<seq<T>>)
    ensures r == CatchExceptions(Filtered(sections, tagOf, idsToRemove), sections)
  {
    var body := KeepSections(sections, tagOf, idsToRemove);
    r := CatchExceptions(body, sections);
  }

  /** A section message as the host hands it over: its identity and its contents. The
      filter only reads sections, so their contents stay as they are for the call. */
  datatype Section = Section(identity: nat, contents: RecordView)

  /** The extractor of filterHomeSections. */
  function HomeFeatureType(section: Section): Outcome<int> {
    ReadIntField(section.contents, "featureTypeCase_")
  }

  /** The extractor of filterBrowseSections. */
  function BrowseSectionType(section: Section): Outcome<int> {
    ReadIntField(section.contents, "sectionTypeCase_")
  }

  /** filterHomeSections over the fail-open FilterSections; the reject list is
      REMOVED_HOME_SECTIONS. */
  method FilterHomeSections(sections: seq<Section>, removedHomeSections: seq<int>) returns (r: seq<Section>)
    ensures Filtered(sections, HomeFeatureType, removedHomeSections).Returned? ==>
              r == Filtered(sections, HomeFeatureType, removedHomeSections).value
    ensures Filtered(sections, HomeFeatureType, removedHomeSections).Threw? ==> r == sections
  {
    r := FilterSections(sections, HomeFeatureType, removedHomeSections);
  }

  /** filterBrowseSections over the fail-open FilterSections; the reject list is
      REMOVED_BROWSE_SECTIONS. */
  method FilterBrowseSections(sections: seq<Section>, removedBrowseSections: seq<int>) returns (r: seq<Section>)
    ensures Filtered(sections, BrowseSectionType, removedBrowseSections).Returned? ==>
              r == Filtered(sections, BrowseSectionType, removedBrowseSections).value
    ensures Filtered(sections, BrowseSectionType, removedBrowseSections).Threw? ==> r == sections
  {
    r := FilterSections(sections, BrowseSectionType, removedBrowseSections);
  }

  /** A home section whose class declares no `featureTypeCase_` field: the extractor
      raises NoSuchFieldError, which `catch (Exception ex)` lets through, where the
      fallback to the input list was intended. */
  lemma UndeclaredFeatureTypeEscapes(removedHomeSections: seq<int>)
    ensures var sections := [Section(0, RecordView([ClassDecl("Section", true, [])], map[]))];
            && Filtered(sections, HomeFeatureType, removedHomeSections) == Threw(NoSuchField("featureTypeCase_"))
            && CatchExceptions(Filtered(sections, HomeFeatureType, removedHomeSections), sections).Threw?
  {
    var sections := [Section(0, RecordView([ClassDecl("Section", true, [])], map[]))];
    assert FindField(sections[0].contents.chain, "featureTypeCase_") == None;
    assert sections[..0] == [];
  }
}
