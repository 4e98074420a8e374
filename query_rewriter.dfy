/**
 * The request rewriting of the purchase-order-item handler: before a read is
 * forwarded to the core service, the expansion list loses the virtual
 * location associations that the handler resolves itself.
 */
module QueryRewriter {
  import opened Text

  /** The plain path separator of an expansion such as `inboundDeliveryItems/receivingLocation`. */
  const DIV := "/"

  /**
   * The names the handler takes from classes outside this model: the
   * virtual association names, the arrival-times expansion, and the plain
   * and URL-encoded list separators.
   */
  datatype Names = Names(
    receivingLocation: string,
    supplierLocation: string,
    plantLocation: string,
    arrivalTimes: string,
    comma: string,
    commaEncoded: string,
    divEncoded: string)

  /** A segment of the expansion list survives unless it is empty or expands a virtual location. */
  predicate KeptSegment(segment: string, div: string, names: Names) {
    !(Contains(segment, div + names.receivingLocation)
      || Contains(segment, div + names.supplierLocation)
      || Contains(segment, div + names.plantLocation)
      || segment == [])
  }

  /** The surviving segments, in their original order. */
  function Keep(segments: seq<string>, div: string, names: Names): seq<string>
    decreases |segments|
  {
    if segments == [] then []
    else (if KeptSegment(segments[0], div, names) then [segments[0]] else [])
         + Keep(segments[1..], div, names)
  }

  /** Every part followed by the separator: what the string builder accumulates. */
  function Terminated(parts: seq<string>, sep: string): string
    decreases |parts|
  {
    if parts == [] then "" else parts[0] + sep + Terminated(parts[1..], sep)
  }

  /** What removing the virtual location segments makes of `uri`: the
      surviving segments joined by the separator. */
  function WithoutLocationSegments(uri: string, comma: string, div: string, names: Names): string
    requires comma != []
  {
    Join(Keep(Split(uri, comma), div, names), comma)
  }

  lemma {:induction false} KeepMembers(segments: seq<string>, div: string, names: Names)
    ensures forall x :: x in Keep(segments, div, names) <==> x in segments && KeptSegment(x, div, names)
    decreases |segments|
  {
    if segments != [] {
      KeepMembers(segments[1..], div, names);
      assert segments == [segments[0]] + segments[1..];
    }
  }

  /** Filtering commutes with concatenation: surviving segments keep their relative order. */
  lemma {:induction false} KeepAppend(a: seq<string>, b: seq<string>, div: string, names: Names)
    ensures Keep(a + b, div, names) == Keep(a, div, names) + Keep(b, div, names)
    decreases |a|
  {
    if a == [] {
      assert a + b == b;
    } else {
      KeepAppend(a[1..], b, div, names);
      assert (a + b)[1..] == a[1..] + b;
    }
  }

  /** A list whose every segment survives is left as it is. */
  lemma {:induction false} KeepAllKept(segments: seq<string>, div: string, names: Names)
    requires forall k :: 0 <= k < |segments| ==> KeptSegment(segments[k], div, names)
    ensures Keep(segments, div, names) == segments
    decreases |segments|
  {
    if segments != [] {
      KeepAllKept(segments[1..], div, names);
      assert [segments[0]] + segments[1..] == segments;
    }
  }

  lemma {:induction false} TerminatedAppend(parts: seq<string>, x: string, sep: string)
    ensures Terminated(parts + [x], sep) == Terminated(parts, sep) + x + sep
    decreases |parts|
  {
    if parts == [] {
      assert [] + [x] == [x];
    } else {
      TerminatedAppend(parts[1..], x, sep);
      assert (parts + [x])[1..] == parts[1..] + [x];
    }
  }

  /** A non-empty builder is the joined parts plus one separator too many. */
  lemma {:induction false} TerminatedIsJoin(parts: seq<string>, sep: string)
    requires parts != []
    ensures Terminated(parts, sep) == Join(parts, sep) + sep
    decreases |parts|
  {
    if |parts| > 1 {
      TerminatedIsJoin(parts[1..], sep);
    }
  }

  /**
   * removeCommas: split `uri` on `comma`, drop the empty segments and those
   * that expand a virtual location, and glue the rest back with one `comma`
   * after each segment; a trailing `comma` is then cut off.
   */
  method RemoveCommas(uri: string, comma: string, div: string, names: Names) returns (r: string)
    requires comma != []
    ensures r == WithoutLocationSegments(uri, comma, div, names)
  {
    var split := Split(uri, comma);
    var builder := "";
    for i := 0 to |split|
      invariant builder == Terminated(Keep(split[..i], div, names), comma)
    {
      var element := split[i];
      KeepAppend(split[..i], [element], div, names);
      assert split[..i + 1] == split[..i] + [element];
      assert Keep([element], div, names) == if KeptSegment(element, div, names) then [element] else [];
      if Contains(element, div + names.receivingLocation)
         || Contains(element, div + names.supplierLocation)
         || Contains(element, div + names.plantLocation)
         || element == []
      {
        assert Keep(split[..i + 1], div, names) == Keep(split[..i], div, names);
        continue;
      }
      assert Keep(split[..i + 1], div, names) == Keep(split[..i], div, names) + [element];
      TerminatedAppend(Keep(split[..i], div, names), element, comma);
      builder := builder + element + comma;
    }
    assert split[..|split|] == split;
    var kept := Keep(split, div, names);
    r := builder;
    if kept != [] {
      TerminatedIsJoin(kept, comma);
    }
    if EndsWith(r, comma) {
      r := r[..|r| - |comma|];
    }
  }

  /** The kept segments are non-empty and separator-free, so joining them gives
      a string that is empty exactly when nothing was kept. */
  lemma KeptSegmentsSepFree(uri: string, comma: string, div: string, names: Names)
    requires comma != []
    ensures forall k :: 0 <= k < |Keep(Split(uri, comma), div, names)| ==>
      var x := Keep(Split(uri, comma), div, names)[k];
      x != [] && !Contains(x, comma) && KeptSegment(x, div, names)
  {
    var parts := Split(uri, comma);
    var kept := Keep(parts, div, names);
    SplitPiecesSepFree(uri, comma);
    KeepMembers(parts, div, names);
    forall k | 0 <= k < |kept|
      ensures kept[k] != [] && !Contains(kept[k], comma) && KeptSegment(kept[k], div, names)
    {
      assert kept[k] in kept;
      var j :| 0 <= j < |parts| && parts[j] == kept[k];
    }
  }

  /**
   * Splitting the rewritten expansion list again yields exactly the surviving
   * segments: the rewrite does not merge or break segments.
   */
  lemma ReSplitGivesKeptSegments(uri: string, comma: string, div: string, names: Names)
    requires comma != [] && Borderless(comma)
    requires Keep(Split(uri, comma), div, names) != []
    ensures Split(WithoutLocationSegments(uri, comma, div, names), comma)
            == Keep(Split(uri, comma), div, names)
  {
    KeptSegmentsSepFree(uri, comma, div, names);
    SplitJoin(Keep(Split(uri, comma), div, names), comma);
  }

  /** The rewritten list neither starts nor ends with the separator and never
      holds two separators in a row. */
  lemma NoStraySeparators(uri: string, comma: string, div: string, names: Names)
    requires comma != [] && Borderless(comma)
    ensures var r := WithoutLocationSegments(uri, comma, div, names);
            !StartsWith(r, comma) && !EndsWith(r, comma) && !Contains(r, comma + comma)
  {
    var r := WithoutLocationSegments(uri, comma, div, names);
    var kept := Keep(Split(uri, comma), div, names);
    if kept == [] {
      assert r == [];
    } else {
      KeptSegmentsSepFree(uri, comma, div, names);
      ReSplitGivesKeptSegments(uri, comma, div, names);
      assert kept[0] != [] && kept[|kept| - 1] != [];
      SplitTrailingSep(r, comma);
      SplitDoubledSep(r, comma);
    }
  }

  /** Every segment of a non-empty rewritten list is non-empty and expands no virtual location. */
  lemma NoLocationSegmentLeft(uri: string, comma: string, div: string, names: Names)
    requires comma != [] && Borderless(comma)
    requires WithoutLocationSegments(uri, comma, div, names) != []
    ensures var parts := Split(WithoutLocationSegments(uri, comma, div, names), comma);
            forall k :: 0 <= k < |parts| ==> KeptSegment(parts[k], div, names)
  {
    KeptSegmentsSepFree(uri, comma, div, names);
    ReSplitGivesKeptSegments(uri, comma, div, names);
  }

  /** Rewriting an already rewritten list changes nothing. */
  lemma RewriteIdempotent(uri: string, comma: string, div: string, names: Names)
    requires comma != [] && Borderless(comma)
    ensures var r := WithoutLocationSegments(uri, comma, div, names);
            WithoutLocationSegments(r, comma, div, names) == r
  {
    var r := WithoutLocationSegments(uri, comma, div, names);
    var kept := Keep(Split(uri, comma), div, names);
    if kept == [] {
      assert Split(r, comma) == [""];
      assert Keep([""], div, names) == [];
    } else {
      KeptSegmentsSepFree(uri, comma, div, names);
      ReSplitGivesKeptSegments(uri, comma, div, names);
      KeepAllKept(kept, div, names);
    }
  }

  /** isLocationExists: the URI mentions the receiving or the supplier location. */
  function IsLocationExists(uri: string, names: Names): (b: bool)
    ensures b <==> (exists i :: OccursAt(uri, names.receivingLocation, i))
                   || (exists i :: OccursAt(uri, names.supplierLocation, i))
  {
    ContainsIffOccurs(uri, names.receivingLocation);
    ContainsIffOccurs(uri, names.supplierLocation);
    Contains(uri, names.receivingLocation) || Contains(uri, names.supplierLocation)
  }

  /** One guarded call of the field remover: only when `marker` occurs in `uri`. */
  function RemoveFieldIfPresent(uri: string, marker: string, field: string,
                                removeFieldFromUrl: (string, string) -> string): string
  {
    if Contains(uri, marker) then removeFieldFromUrl(uri, field) else uri
  }

  /** The expansion removed for arrival times; the backslash is part of the pattern. */
  function ArrivalTimesField(names: Names): string {
    "inboundDeliveryItems\\/" + names.arrivalTimes
  }

  /**
   * removeUnnecessaryExpands. The plain separator pair is used whenever the
   * URI holds a plain comma; the encoded pair only when it holds no plain but
   * an encoded comma; otherwise the URI goes on unchanged. Then the receiving
   * location, the supplier location and the arrival times are each handed to
   * the field remover, in that order, when the URI still mentions them.
   */
  method RemoveUnnecessaryExpands(uri: string, names: Names,
                                  removeFieldFromUrl: (string, string) -> string)
    returns (r: string)
    requires names.comma != [] && names.commaEncoded != []
    ensures var cleaned :=
              if Contains(uri, names.comma) then WithoutLocationSegments(uri, names.comma, DIV, names)
              else if Contains(uri, names.commaEncoded)
              then WithoutLocationSegments(uri, names.commaEncoded, names.divEncoded, names)
              else uri;
            var r1 := RemoveFieldIfPresent(cleaned, names.receivingLocation, names.receivingLocation, removeFieldFromUrl);
            var r2 := RemoveFieldIfPresent(r1, names.supplierLocation, names.supplierLocation, removeFieldFromUrl);
            r == RemoveFieldIfPresent(r2, names.arrivalTimes, ArrivalTimesField(names), removeFieldFromUrl)
    ensures !Contains(uri, names.comma) && !Contains(uri, names.commaEncoded)
            && !Contains(uri, names.receivingLocation) && !Contains(uri, names.supplierLocation)
            && !Contains(uri, names.arrivalTimes)
            ==> r == uri
  {
    r := uri;
    if Contains(uri, names.comma) {
      r := RemoveCommas(uri, names.comma, DIV, names);
    } else if Contains(uri, names.commaEncoded) {
      r := RemoveCommas(uri, names.commaEncoded, names.divEncoded, names);
    }
    if Contains(r, names.receivingLocation) {
      r := removeFieldFromUrl(r, names.receivingLocation);
    }
    if Contains(r, names.supplierLocation) {
      r := removeFieldFromUrl(r, names.supplierLocation);
    }
    if Contains(r, names.arrivalTimes) {
      r := removeFieldFromUrl(r, ArrivalTimesField(names));
    }
  }
}
