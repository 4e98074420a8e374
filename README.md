# Purchase-order-item read handler: request rewriting and record enrichment

This project models the core of `POFPurchaseOrderItemODataHandler`, the handler
that serves reads of purchase-order items in the track-purchase-orders sample
service. Before a read is forwarded to the core service, the handler rewrites
the query URI so that it no longer expands the virtual location associations
(receiving, supplier and plant location), which the handler resolves itself.
After the read, it enriches the returned items: the net value and completion
value of an item whose latest process event is a deletion are set to zero, and
the zero padding is stripped from four identifier fields.

The model is written in Dafny in five modules:

- `Wrappers` (`wrappers.dfy`): `Option`, standing for Java references that may be null.
- `Text` (`text.dfy`): `startsWith`, `endsWith`, `contains`, `isBlank` and
  `split` on a literal separator, with the facts about splitting and joining
  that the rewriter relies on: splitting loses nothing, its pieces are free of
  the separator, splitting undoes joining, and a leading, trailing or doubled
  separator shows up as an empty piece.
- `QueryRewriter` (`query_rewriter.dfy`): `removeCommas` as a method with a
  loop over the split segments (the `StringBuilder` is a string variable),
  specified by `WithoutLocationSegments`, the surviving segments joined by the
  separator; `isLocationExists`; `removeUnnecessaryExpands` with its choice of
  separator pair.
- `DeletionEvents` (`deletion_events.dfy`): events, `Stream.max` on the
  business timestamp as a left fold (`Latest`), `isDeletionLatest`, and the
  grouping of process-event-directory entries by process id.
- `PurchaseOrderItems` (`purchase_order_items.dfy`): the item as a class whose
  fields the methods update in place; `updateCompletionValue`,
  `updateCompletionValues`, and both forms of `removeUnneededLeadingZero`.

Outside collaborators become parameters: the results of the backend reads are
input sequences (`seq<ProcessEventDirectory>`), `POFUtils.removeFieldFromUrl`
is a function parameter `removeFieldFromUrl`, and the constants defined in
classes outside this handler (`Constants.RECEIVING_LOCATION`,
`SUPPLIER_LOCATION`, `PLANT_LOCATION`, `ARRIVAL_TIMES`, `COMMA`,
`COMMA_ENCODED`, `DIV_ENCODED`) are fields of a `Names` value. `DIV` is the
handler's own `"/"`.

On ties, `Stream.max` reduces with `BinaryOperator.maxBy`, which keeps the
element found first, so the model picks the first latest event in list order
(`LatestIsFirstLatest`, `TieGoesToEarlierEvent`). An event whose type is null
counts as an event of type `""`, which is not a deletion, as the
`Optional.map(...).orElse(EMPTY)` chain of `isDeletionLatest` makes it.

## Model

| member | source | states |
|---|---|---|
| `QueryRewriter.RemoveCommas` | lbn-gtt-template-tpo/GTT-V2-Sample-TrackPurchaseOrders-Service/srv/src/main/java/com/sap/gtt/v2/sample/pof/odata/handler/POFPurchaseOrderItemODataHandler.java:179-204 | the builder loop followed by the trailing-separator cut yields exactly the surviving segments of the split URI joined by the separator (`WithoutLocationSegments`) |
| `QueryRewriter.KeptSegment` | lbn-gtt-template-tpo/GTT-V2-Sample-TrackPurchaseOrders-Service/srv/src/main/java/com/sap/gtt/v2/sample/pof/odata/handler/POFPurchaseOrderItemODataHandler.java:184-187 | defines the drop condition: a segment is kept unless it contains `div+RECEIVING_LOCATION`, `div+SUPPLIER_LOCATION` or `div+PLANT_LOCATION`, or is empty |
| `QueryRewriter.KeepMembers` | lbn-gtt-template-tpo/GTT-V2-Sample-TrackPurchaseOrders-Service/srv/src/main/java/com/sap/gtt/v2/sample/pof/odata/handler/POFPurchaseOrderItemODataHandler.java:183-194 | a segment survives if and only if it is a segment of the input that is non-empty and contains none of `div+RECEIVING_LOCATION`, `div+SUPPLIER_LOCATION`, `div+PLANT_LOCATION` |
| `QueryRewriter.KeepAppend` | lbn-gtt-template-tpo/GTT-V2-Sample-TrackPurchaseOrders-Service/srv/src/main/java/com/sap/gtt/v2/sample/pof/odata/handler/POFPurchaseOrderItemODataHandler.java:183-194 | filtering distributes over concatenation, so surviving segments keep their original relative order |
| `QueryRewriter.KeepAllKept` | lbn-gtt-template-tpo/GTT-V2-Sample-TrackPurchaseOrders-Service/srv/src/main/java/com/sap/gtt/v2/sample/pof/odata/handler/POFPurchaseOrderItemODataHandler.java:183-189 | a segment list in which every segment survives is left unchanged |
| `QueryRewriter.TerminatedAppend` | lbn-gtt-template-tpo/GTT-V2-Sample-TrackPurchaseOrders-Service/srv/src/main/java/com/sap/gtt/v2/sample/pof/odata/handler/POFPurchaseOrderItemODataHandler.java:191-193 | appending one segment and a separator to the builder extends its contents by exactly that segment and separator |
| `QueryRewriter.TerminatedIsJoin` | lbn-gtt-template-tpo/GTT-V2-Sample-TrackPurchaseOrders-Service/srv/src/main/java/com/sap/gtt/v2/sample/pof/odata/handler/POFPurchaseOrderItemODataHandler.java:195-201 | a non-empty builder is the joined segments plus one trailing separator, which the cut removes |
| `QueryRewriter.KeptSegmentsSepFree` | lbn-gtt-template-tpo/GTT-V2-Sample-TrackPurchaseOrders-Service/srv/src/main/java/com/sap/gtt/v2/sample/pof/odata/handler/POFPurchaseOrderItemODataHandler.java:181-189 | every surviving segment is non-empty, contains no separator and expands no virtual location |
| `QueryRewriter.ReSplitGivesKeptSegments` | lbn-gtt-template-tpo/GTT-V2-Sample-TrackPurchaseOrders-Service/srv/src/main/java/com/sap/gtt/v2/sample/pof/odata/handler/POFPurchaseOrderItemODataHandler.java:181-201 | splitting the rewritten URI on the same separator gives back exactly the surviving segments: the rewrite neither merges nor breaks segments |
| `QueryRewriter.NoStraySeparators` | lbn-gtt-template-tpo/GTT-V2-Sample-TrackPurchaseOrders-Service/srv/src/main/java/com/sap/gtt/v2/sample/pof/odata/handler/POFPurchaseOrderItemODataHandler.java:187-201 | the rewritten URI does not start or end with the separator and never holds two separators in a row |
| `QueryRewriter.NoLocationSegmentLeft` | lbn-gtt-template-tpo/GTT-V2-Sample-TrackPurchaseOrders-Service/srv/src/main/java/com/sap/gtt/v2/sample/pof/odata/handler/POFPurchaseOrderItemODataHandler.java:183-189 | no segment of a non-empty rewritten URI is empty or expands a virtual location |
| `QueryRewriter.RewriteIdempotent` | lbn-gtt-template-tpo/GTT-V2-Sample-TrackPurchaseOrders-Service/srv/src/main/java/com/sap/gtt/v2/sample/pof/odata/handler/POFPurchaseOrderItemODataHandler.java:179-204 | rewriting an already rewritten URI changes nothing |
| `QueryRewriter.IsLocationExists` | lbn-gtt-template-tpo/GTT-V2-Sample-TrackPurchaseOrders-Service/srv/src/main/java/com/sap/gtt/v2/sample/pof/odata/handler/POFPurchaseOrderItemODataHandler.java:156-158 | true if and only if RECEIVING_LOCATION or SUPPLIER_LOCATION occurs at some index of the URI |
| `QueryRewriter.RemoveUnnecessaryExpands` | lbn-gtt-template-tpo/GTT-V2-Sample-TrackPurchaseOrders-Service/srv/src/main/java/com/sap/gtt/v2/sample/pof/odata/handler/POFPurchaseOrderItemODataHandler.java:160-177 | the plain comma with `/` is used when the URI holds a plain comma, the encoded pair only when it holds no plain but an encoded comma, otherwise the URI is kept; then each of the three fields still mentioned goes to the field remover in order; a URI with neither separator nor field name comes back unchanged |
| `Text.Split` | lbn-gtt-template-tpo/GTT-V2-Sample-TrackPurchaseOrders-Service/srv/src/main/java/com/sap/gtt/v2/sample/pof/odata/handler/POFPurchaseOrderItemODataHandler.java:181 | `uri.split(comma)` on a literal separator: the occurrences are cut left to right without overlap, and there is always at least one piece |
| `Text.ContainsIffOccurs` | lbn-gtt-template-tpo/GTT-V2-Sample-TrackPurchaseOrders-Service/srv/src/main/java/com/sap/gtt/v2/sample/pof/odata/handler/POFPurchaseOrderItemODataHandler.java:157 | the recursive `contains` holds exactly when the pattern occurs at some index |
| `Text.JoinSplit` | lbn-gtt-template-tpo/GTT-V2-Sample-TrackPurchaseOrders-Service/srv/src/main/java/com/sap/gtt/v2/sample/pof/odata/handler/POFPurchaseOrderItemODataHandler.java:181 | the pieces of a split joined with the separator give back the input |
| `Text.SplitPiecesSepFree` | lbn-gtt-template-tpo/GTT-V2-Sample-TrackPurchaseOrders-Service/srv/src/main/java/com/sap/gtt/v2/sample/pof/odata/handler/POFPurchaseOrderItemODataHandler.java:181 | no piece of a split contains the separator |
| `Text.SplitWhole` | lbn-gtt-template-tpo/GTT-V2-Sample-TrackPurchaseOrders-Service/srv/src/main/java/com/sap/gtt/v2/sample/pof/odata/handler/POFPurchaseOrderItemODataHandler.java:181 | a string without the separator splits into itself alone |
| `Text.SplitCut` | lbn-gtt-template-tpo/GTT-V2-Sample-TrackPurchaseOrders-Service/srv/src/main/java/com/sap/gtt/v2/sample/pof/odata/handler/POFPurchaseOrderItemODataHandler.java:181 | a separator-free piece followed by a borderless separator is cut off exactly there |
| `Text.SplitJoin` | lbn-gtt-template-tpo/GTT-V2-Sample-TrackPurchaseOrders-Service/srv/src/main/java/com/sap/gtt/v2/sample/pof/odata/handler/POFPurchaseOrderItemODataHandler.java:181 | splitting undoes joining for separator-free pieces and a borderless separator |
| `Text.NoOverlap` | lbn-gtt-template-tpo/GTT-V2-Sample-TrackPurchaseOrders-Service/srv/src/main/java/com/sap/gtt/v2/sample/pof/odata/handler/POFPurchaseOrderItemODataHandler.java:181 | two occurrences of a borderless separator cannot overlap |
| `Text.SeparatorsApart` | lbn-gtt-template-tpo/GTT-V2-Sample-TrackPurchaseOrders-Service/srv/src/main/java/com/sap/gtt/v2/sample/pof/odata/handler/POFPurchaseOrderItemODataHandler.java:197 | a string longer than a borderless separator that starts and ends with it holds two separate copies |
| `Text.SplitTrailingSep` | lbn-gtt-template-tpo/GTT-V2-Sample-TrackPurchaseOrders-Service/srv/src/main/java/com/sap/gtt/v2/sample/pof/odata/handler/POFPurchaseOrderItemODataHandler.java:197-201 | a string ending with a borderless separator splits into a last piece that is empty |
| `Text.ContainsAfterSep` | lbn-gtt-template-tpo/GTT-V2-Sample-TrackPurchaseOrders-Service/srv/src/main/java/com/sap/gtt/v2/sample/pof/odata/handler/POFPurchaseOrderItemODataHandler.java:181 | skipping a leading borderless separator loses no occurrence of a pattern that starts with it |
| `Text.SplitDoubledSep` | lbn-gtt-template-tpo/GTT-V2-Sample-TrackPurchaseOrders-Service/srv/src/main/java/com/sap/gtt/v2/sample/pof/odata/handler/POFPurchaseOrderItemODataHandler.java:187 | two adjacent borderless separators produce an empty piece after the first piece |
| `Text.IsWhitespace` | lbn-gtt-template-tpo/GTT-V2-Sample-TrackPurchaseOrders-Service/srv/src/main/java/com/sap/gtt/v2/sample/pof/odata/handler/POFPurchaseOrderItemODataHandler.java:211 | defines `Character.isWhitespace` by its table: TAB..CR, FS..US, the space and the Unicode space, line and paragraph separators other than the non-breaking ones |
| `Text.IsBlank` | lbn-gtt-template-tpo/GTT-V2-Sample-TrackPurchaseOrders-Service/srv/src/main/java/com/sap/gtt/v2/sample/pof/odata/handler/POFPurchaseOrderItemODataHandler.java:211 | defines `StringUtils.isBlank` on a non-null string: every character is whitespace, which includes the empty string |
| `DeletionEvents.Latest` | lbn-gtt-template-tpo/GTT-V2-Sample-TrackPurchaseOrders-Service/srv/src/main/java/com/sap/gtt/v2/sample/pof/odata/handler/POFPurchaseOrderItemODataHandler.java:127-128 | the maximum is absent exactly for an empty list |
| `DeletionEvents.LatestIsFirstLatest` | lbn-gtt-template-tpo/GTT-V2-Sample-TrackPurchaseOrders-Service/srv/src/main/java/com/sap/gtt/v2/sample/pof/odata/handler/POFPurchaseOrderItemODataHandler.java:127-128 | the maximum of a non-empty list is the event with the latest timestamp that comes first in the list |
| `DeletionEvents.FirstLatestUnique` | lbn-gtt-template-tpo/GTT-V2-Sample-TrackPurchaseOrders-Service/srv/src/main/java/com/sap/gtt/v2/sample/pof/odata/handler/POFPurchaseOrderItemODataHandler.java:127-128 | only one index is the first latest event, so the choice is determined |
| `DeletionEvents.IsDeletionLatest` | lbn-gtt-template-tpo/GTT-V2-Sample-TrackPurchaseOrders-Service/srv/src/main/java/com/sap/gtt/v2/sample/pof/odata/handler/POFPurchaseOrderItemODataHandler.java:126-130 | false for an empty list; otherwise true if and only if the first latest event's type is not null and ends with `.DeletionEvent` |
| `DeletionEvents.NullTypeOfLatestIsNoDeletion` | lbn-gtt-template-tpo/GTT-V2-Sample-TrackPurchaseOrders-Service/srv/src/main/java/com/sap/gtt/v2/sample/pof/odata/handler/POFPurchaseOrderItemODataHandler.java:127-129 | when the first latest event has a null type, the answer is false: the empty string does not end with `.DeletionEvent` |
| `DeletionEvents.DeletionLatestOfAnyMaximal` | lbn-gtt-template-tpo/GTT-V2-Sample-TrackPurchaseOrders-Service/srv/src/main/java/com/sap/gtt/v2/sample/pof/odata/handler/POFPurchaseOrderItemODataHandler.java:127-129 | when all latest events agree on being deletions, the answer is that of any one of them |
| `DeletionEvents.LaterEventOverridesDeletion` | lbn-gtt-template-tpo/GTT-V2-Sample-TrackPurchaseOrders-Service/srv/src/main/java/com/sap/gtt/v2/sample/pof/odata/handler/POFPurchaseOrderItemODataHandler.java:127-129 | an event of another type strictly later than every deletion makes the answer false |
| `DeletionEvents.TieGoesToEarlierEvent` | lbn-gtt-template-tpo/GTT-V2-Sample-TrackPurchaseOrders-Service/srv/src/main/java/com/sap/gtt/v2/sample/pof/odata/handler/POFPurchaseOrderItemODataHandler.java:127-128 | for a deletion and another event with the same timestamp, the one listed first decides |
| `DeletionEvents.EventsOfAppend` | lbn-gtt-template-tpo/GTT-V2-Sample-TrackPurchaseOrders-Service/srv/src/main/java/com/sap/gtt/v2/sample/pof/odata/handler/POFPurchaseOrderItemODataHandler.java:101-103 | the events of a process in two concatenated directory reads are those of the first read followed by those of the second |
| `DeletionEvents.EventsOfLast` | lbn-gtt-template-tpo/GTT-V2-Sample-TrackPurchaseOrders-Service/srv/src/main/java/com/sap/gtt/v2/sample/pof/odata/handler/POFPurchaseOrderItemODataHandler.java:102-103 | one more directory entry adds its event to its own process's events only, and only when it is not null |
| `DeletionEvents.GroupOf` | lbn-gtt-template-tpo/GTT-V2-Sample-TrackPurchaseOrders-Service/srv/src/main/java/com/sap/gtt/v2/sample/pof/odata/handler/POFPurchaseOrderItemODataHandler.java:106 | defines `getOrDefault` with an empty list: the group of an id absent from the map is empty |
| `DeletionEvents.GroupEvents` | lbn-gtt-template-tpo/GTT-V2-Sample-TrackPurchaseOrders-Service/srv/src/main/java/com/sap/gtt/v2/sample/pof/odata/handler/POFPurchaseOrderItemODataHandler.java:98-103 | for every process id, its group (empty when absent) is the list of its non-null events in directory order, and no group is empty |
| `DeletionEvents.NonNullEvents` | lbn-gtt-template-tpo/GTT-V2-Sample-TrackPurchaseOrders-Service/srv/src/main/java/com/sap/gtt/v2/sample/pof/odata/handler/POFPurchaseOrderItemODataHandler.java:119 | the events kept are no more than the entries read, and an event is kept exactly when some entry read refers to it |
| `DeletionEvents.SingleReadAgreesWithGrouping` | lbn-gtt-template-tpo/GTT-V2-Sample-TrackPurchaseOrders-Service/srv/src/main/java/com/sap/gtt/v2/sample/pof/odata/handler/POFPurchaseOrderItemODataHandler.java:118-119 | when every entry read belongs to the item, dropping null events gives the same list as the grouping |
| `PurchaseOrderItems.IsNotBlank` | lbn-gtt-template-tpo/GTT-V2-Sample-TrackPurchaseOrders-Service/srv/src/main/java/com/sap/gtt/v2/sample/pof/odata/handler/POFPurchaseOrderItemODataHandler.java:211 | defines `isNotBlank`: the field is not null and holds some non-whitespace character |
| `PurchaseOrderItems.StripLeadingZeros` | lbn-gtt-template-tpo/GTT-V2-Sample-TrackPurchaseOrders-Service/srv/src/main/java/com/sap/gtt/v2/sample/pof/odata/handler/POFPurchaseOrderItemODataHandler.java:41 | the result is a suffix of the input that does not start with `0`, and everything removed was `0` |
| `PurchaseOrderItems.StripLeadingZerosExact` | lbn-gtt-template-tpo/GTT-V2-Sample-TrackPurchaseOrders-Service/srv/src/main/java/com/sap/gtt/v2/sample/pof/odata/handler/POFPurchaseOrderItemODataHandler.java:41 | the greedy `^0*` match: a run of zeros followed by a rest not starting with `0` loses exactly the zeros |
| `PurchaseOrderItems.AllZerosBecomeEmpty` | lbn-gtt-template-tpo/GTT-V2-Sample-TrackPurchaseOrders-Service/srv/src/main/java/com/sap/gtt/v2/sample/pof/odata/handler/POFPurchaseOrderItemODataHandler.java:212 | an identifier made only of zeros becomes empty |
| `PurchaseOrderItems.StripLeadingZerosIdempotent` | lbn-gtt-template-tpo/GTT-V2-Sample-TrackPurchaseOrders-Service/srv/src/main/java/com/sap/gtt/v2/sample/pof/odata/handler/POFPurchaseOrderItemODataHandler.java:212 | stripping twice is stripping once |
| `PurchaseOrderItems.NormalizedField` | lbn-gtt-template-tpo/GTT-V2-Sample-TrackPurchaseOrders-Service/srv/src/main/java/com/sap/gtt/v2/sample/pof/odata/handler/POFPurchaseOrderItemODataHandler.java:211-212 | a null or blank field is untouched; a non-blank one becomes a suffix of itself without leading `0`, having lost only zeros |
| `PurchaseOrderItems.NormalizedFieldIdempotent` | lbn-gtt-template-tpo/GTT-V2-Sample-TrackPurchaseOrders-Service/srv/src/main/java/com/sap/gtt/v2/sample/pof/odata/handler/POFPurchaseOrderItemODataHandler.java:211-222 | normalising a field twice is normalising it once, also when stripping leaves a blank string |
| `PurchaseOrderItems.UpdateCompletionValue` | lbn-gtt-template-tpo/GTT-V2-Sample-TrackPurchaseOrders-Service/srv/src/main/java/com/sap/gtt/v2/sample/pof/odata/handler/POFPurchaseOrderItemODataHandler.java:114-124 | net value and completion value become zero exactly when the latest of the non-null events read is a deletion; every other field is unchanged |
| `PurchaseOrderItems.UpdateCompletionValues` | lbn-gtt-template-tpo/GTT-V2-Sample-TrackPurchaseOrders-Service/srv/src/main/java/com/sap/gtt/v2/sample/pof/odata/handler/POFPurchaseOrderItemODataHandler.java:95-112 | every item whose process's non-null events have a deletion as latest event has net value and completion value zero; every other item and field keeps its value, also when an item is listed twice |
| `PurchaseOrderItems.RemoveUnneededLeadingZero` | lbn-gtt-template-tpo/GTT-V2-Sample-TrackPurchaseOrders-Service/srv/src/main/java/com/sap/gtt/v2/sample/pof/odata/handler/POFPurchaseOrderItemODataHandler.java:210-222 | purchase order number, material id, item number and supplier id each become their normalised value; id and values are unchanged |
| `PurchaseOrderItems.RemoveUnneededLeadingZeros` | lbn-gtt-template-tpo/GTT-V2-Sample-TrackPurchaseOrders-Service/srv/src/main/java/com/sap/gtt/v2/sample/pof/odata/handler/POFPurchaseOrderItemODataHandler.java:206-208 | every item of the list ends up with normalised identifiers, an item listed twice the same as if listed once |

## Left out

- `handleReadEntitySet` and `handleReadEntity` (lines 55-93) only sequence remote reads, the steps modelled here and the OData conversion; they are not modelled as a whole.
- The backend reads (`readEntitySet`, `readEntity`, `readEntitySetAll`) are remote I/O; their results are input sequences. The model does not check that the directory entries have the deletion or undeletion types the query asks for.
- `POFUtils.generateSplitLargeFilterExpr` and the query strings built with `UriComponentsBuilder` (lines 96-100, 115-117) are library or unseen code; the directory entries of all chunks are one input sequence in chunk order.
- The `parallelStream` fan-out (line 98) is modelled as the equivalent sequential grouping; grouping into lists keeps encounter order on parallel streams too.
- `setLocations`, `processExpands` and the location service (lines 132-154) are foreign collaborators and not modelled.
- The recursion into inbound delivery items (lines 224-226) calls a sibling handler that is not part of this model; the modelled item has no children.
- `POFUtils.removeFieldFromUrl` is an arbitrary function parameter and `POFUtils.getNormalizedUri` is replaced by the URI given as input.
- The values of the constants defined outside the handler are not known; they are parameters, and the two comma separators are required to be non-empty, as any real separator is.
- `QueryRewriter.NoStraySeparators`: proved only for separators without a border (no proper prefix equal to a suffix), which covers every single character and `%2C`; for a self-overlapping separator such as `aba` the property does not hold.
- `QueryRewriter.ReSplitGivesKeptSegments`: proved for separators without a border only, for the same reason.
- `QueryRewriter.NoLocationSegmentLeft`: proved for separators without a border only, for the same reason.
- `QueryRewriter.RewriteIdempotent`: proved for separators without a border only, for the same reason.
- `String.split` drops trailing empty pieces; the model's `Split` keeps them. The filter drops empty segments anyway, so the rewritten URI is the same. The separators are taken as literal text, without regular-expression metacharacters.
- Java strings are UTF-16 code units; the model's strings are sequences of Unicode characters.
- `Character.isWhitespace` is modelled by the whitespace table of current Java releases (U+180E is not whitespace).
- Null references that would throw (a null process id, a null item list, a null item) are not modelled; a null `BigDecimal` value is not modelled either, the values are reals. A null event type is modelled and gives false.
- Timestamps are Java `long`s compared with `Long.compare`; the model uses unbounded integers, which compare the same way.
