/**
 * The record enrichment of the purchase-order-item handler: zeroing the
 * values of items whose latest event is a deletion, and stripping the zero
 * padding off their identifiers. Both update the items in place.
 */
module PurchaseOrderItems {
  import opened Wrappers
  import opened Text
  import opened DeletionEvents

  /** The fields of a purchase-order item that the handler reads or writes. */
  class PurchaseOrderItem {
    var id: Uuid
    var netValue: real
    var completionValue: real
    var purchaseOrderNo: Option<string>
    var materialId: Option<string>
    var itemNo: Option<string>
    var supplierId: Option<string>
  }

  /** StringUtils.isNotBlank: not null, and holding some non-whitespace character. */
  predicate IsNotBlank(field: Option<string>) {
    field.Some? && !IsBlank(field.value)
  }

  /** `s` with all its leading '0' characters removed (replaceAll("^0*", "")). */
  function StripLeadingZeros(s: string): (r: string)
    ensures |r| <= |s| && r == s[|s| - |r|..]
    ensures r == [] || r[0] != '0'
    ensures forall i :: 0 <= i < |s| - |r| ==> s[i] == '0'
    decreases |s|
  {
    if s != [] && s[0] == '0' then StripLeadingZeros(s[1..]) else s
  }

  /** The greedy `^0*` match: whatever splits into zeros and a rest not starting
      with '0' loses exactly the zeros. */
  lemma StripLeadingZerosExact(zeros: string, rest: string)
    requires forall i :: 0 <= i < |zeros| ==> zeros[i] == '0'
    requires rest == [] || rest[0] != '0'
    ensures StripLeadingZeros(zeros + rest) == rest
  {
    var s := zeros + rest;
    var r := StripLeadingZeros(s);
    assert forall i :: 0 <= i < |zeros| ==> s[i] == '0';
    assert rest != [] ==> s[|zeros|] == rest[0];
    assert r != [] ==> r[0] == s[|s| - |r|];
  }

  /** An identifier made only of zeros becomes empty. */
  lemma AllZerosBecomeEmpty(s: string)
    requires forall i :: 0 <= i < |s| ==> s[i] == '0'
    ensures StripLeadingZeros(s) == []
  {
    StripLeadingZerosExact(s, []);
    assert s + [] == s;
  }

  lemma {:induction false} StripLeadingZerosIdempotent(s: string)
    ensures StripLeadingZeros(StripLeadingZeros(s)) == StripLeadingZeros(s)
  {
    var r := StripLeadingZeros(s);
    StripLeadingZerosExact([], r);
    assert [] + r == r;
  }

  /** One identifier field after normalisation: stripped when not blank, untouched otherwise. */
  function NormalizedField(field: Option<string>): (r: Option<string>)
    ensures !IsNotBlank(field) ==> r == field
    ensures IsNotBlank(field) ==>
              r.Some? && EndsWith(field.value, r.value) && (r.value == [] || r.value[0] != '0')
              && forall i :: 0 <= i < |field.value| - |r.value| ==> field.value[i] == '0'
  {
    if IsNotBlank(field) then Some(StripLeadingZeros(field.value)) else field
  }

  /** Normalising twice is normalising once, even when stripping leaves a blank string. */
  lemma NormalizedFieldIdempotent(field: Option<string>)
    ensures NormalizedField(NormalizedField(field)) == NormalizedField(field)
  {
    if IsNotBlank(field) {
      StripLeadingZerosIdempotent(field.value);
    }
  }

  /**
   * updateCompletionValue: the directory entries read for one item give its
   * events (null events dropped); a deletion as latest event zeroes the
   * net value and the completion value.
   */
  method UpdateCompletionValue(item: PurchaseOrderItem, results: seq<ProcessEventDirectory>)
    modifies item
    ensures IsDeletionLatest(NonNullEvents(results)) ==> item.netValue == 0.0 && item.completionValue == 0.0
    ensures !IsDeletionLatest(NonNullEvents(results)) ==>
              item.netValue == old(item.netValue) && item.completionValue == old(item.completionValue)
    ensures item.id == old(item.id) && item.purchaseOrderNo == old(item.purchaseOrderNo)
    ensures item.materialId == old(item.materialId) && item.itemNo == old(item.itemNo)
    ensures item.supplierId == old(item.supplierId)
  {
    var events := NonNullEvents(results);
    if IsDeletionLatest(events) {
      item.netValue := 0.0;
      item.completionValue := 0.0;
    }
  }

  /**
   * updateCompletionValues: the directory entries read for all items are
   * grouped by process id; every item whose group (empty when absent) has a
   * deletion as latest event gets its net value and completion value zeroed.
   * Nothing else changes, and an item listed twice is treated the same way
   * both times.
   */
  method UpdateCompletionValues(items: array<PurchaseOrderItem>, directory: seq<ProcessEventDirectory>)
    modifies set k | 0 <= k < items.Length :: items[k]
    ensures forall k :: 0 <= k < items.Length ==>
              var o := items[k];
              o.id == old(o.id) && o.purchaseOrderNo == old(o.purchaseOrderNo)
              && o.materialId == old(o.materialId) && o.itemNo == old(o.itemNo)
              && o.supplierId == old(o.supplierId)
              && (if IsDeletionLatest(EventsOf(directory, o.id))
                  then o.netValue == 0.0 && o.completionValue == 0.0
                  else o.netValue == old(o.netValue) && o.completionValue == old(o.completionValue))
  {
    var groups := GroupEvents(directory);
    for i := 0 to items.Length
      invariant forall k :: 0 <= k < items.Length ==>
                  var o := items[k];
                  o.id == old(o.id) && o.purchaseOrderNo == old(o.purchaseOrderNo)
                  && o.materialId == old(o.materialId) && o.itemNo == old(o.itemNo)
                  && o.supplierId == old(o.supplierId)
                  && (if o in items[..i] && IsDeletionLatest(EventsOf(directory, o.id))
                      then o.netValue == 0.0 && o.completionValue == 0.0
                      else o.netValue == old(o.netValue) && o.completionValue == old(o.completionValue))
    {
      var item := items[i];
      var events := GroupOf(groups, item.id);
      if IsDeletionLatest(events) {
        item.netValue := 0.0;
        item.completionValue := 0.0;
      }
      assert items[..i + 1] == items[..i] + [item];
    }
    assert items[..items.Length] == items[..];
  }

  /**
   * removeUnneededLeadingZero for one item: each of the purchase order
   * number, material id, item number and supplier id that is not blank loses
   * its leading zeros.
   */
  method RemoveUnneededLeadingZero(item: PurchaseOrderItem)
    modifies item
    ensures item.purchaseOrderNo == NormalizedField(old(item.purchaseOrderNo))
    ensures item.materialId == NormalizedField(old(item.materialId))
    ensures item.itemNo == NormalizedField(old(item.itemNo))
    ensures item.supplierId == NormalizedField(old(item.supplierId))
    ensures item.id == old(item.id) && item.netValue == old(item.netValue)
    ensures item.completionValue == old(item.completionValue)
  {
    if IsNotBlank(item.purchaseOrderNo) {
      item.purchaseOrderNo := Some(StripLeadingZeros(item.purchaseOrderNo.value));
    }
    if IsNotBlank(item.materialId) {
      item.materialId := Some(StripLeadingZeros(item.materialId.value));
    }
    if IsNotBlank(item.itemNo) {
      item.itemNo := Some(StripLeadingZeros(item.itemNo.value));
    }
    if IsNotBlank(item.supplierId) {
      item.supplierId := Some(StripLeadingZeros(item.supplierId.value));
    }
  }

  /**
   * removeUnneededLeadingZero for a list: every item is normalised; an item
   * listed twice ends up the same as if listed once.
   */
  method RemoveUnneededLeadingZeros(items: array<PurchaseOrderItem>)
    modifies set k | 0 <= k < items.Length :: items[k]
    ensures forall k :: 0 <= k < items.Length ==>
              var o := items[k];
              o.purchaseOrderNo == NormalizedField(old(o.purchaseOrderNo))
              && o.materialId == NormalizedField(old(o.materialId))
              && o.itemNo == NormalizedField(old(o.itemNo))
              && o.supplierId == NormalizedField(old(o.supplierId))
              && o.id == old(o.id) && o.netValue == old(o.netValue)
              && o.completionValue == old(o.completionValue)
  {
    for i := 0 to items.Length
      invariant forall k :: 0 <= k < items.Length ==>
                  var o := items[k];
                  o.id == old(o.id) && o.netValue == old(o.netValue)
                  && o.completionValue == old(o.completionValue)
                  && if o in items[..i] then
                       o.purchaseOrderNo == NormalizedField(old(o.purchaseOrderNo))
                       && o.materialId == NormalizedField(old(o.materialId))
                       && o.itemNo == NormalizedField(old(o.itemNo))
                       && o.supplierId == NormalizedField(old(o.supplierId))
                     else
                       o.purchaseOrderNo == old(o.purchaseOrderNo)
                       && o.materialId == old(o.materialId)
                       && o.itemNo == old(o.itemNo)
                       && o.supplierId == old(o.supplierId)
    {
      var item := items[i];
      NormalizedFieldIdempotent(old(item.purchaseOrderNo));
      NormalizedFieldIdempotent(old(item.materialId));
      NormalizedFieldIdempotent(old(item.itemNo));
      NormalizedFieldIdempotent(old(item.supplierId));
      RemoveUnneededLeadingZero(item);
      assert items[..i + 1] == items[..i] + [item];
    }
    assert items[..items.Length] == items[..];
  }
}
