# Buddy list and attachment decoder of the vk.com Qt bindings, in Dafny

This project models two small in-memory parts of the Vreen/VKit vk.com API
bindings and proves properties of them.

**The buddy list model (`BuddyModel`).** The model keeps the list of contacts
that a list view shows. A contact passes the filter if it is a friend (when
friends-only is on) and its name contains the name filter, ignoring case. The
model updates the list in place:
- a contact the roster adds is inserted at its lower bound under the sort
  comparator, found by binary search;
- a contact the roster removes is found by a linear scan of ids and removed;
- changing the name filter rebuilds the list from the roster by sorted
  insertion;
- binding a roster or a finished sync replaces the list with the roster's list
  as it is.

Modules:
- `Ordering` (`ordering.dfy`): the comparator as an abstract strict weak order,
  sortedness, the lower-bound binary search, and insertion.
- `Text` (`text.dfy`): case folding and substring search.
- `Buddies` (`buddy_model.dfy`): the contact record, the filter, the roster and
  the `BuddyModel` class, whose field `buddyList` its methods reassign.

**The attachment decoder (`Attachment`).** It turns a wire map such as
`{type: "photo", photo: {...}}` into two parts:
- a type code: the position of the type name in an 11-entry table, or -1
  (`Other`);
- a flat property map: the nested map lifted to the top level, with `"type"`
  holding the code.

Modules:
- `Variants` (`variant.dfy`): dynamically typed values and the `toMap` and
  `toString` conversions the decoder uses.
- `Attachments` (`attachment.dfy`): the type table, decoding, property access,
  and the list and hash conversions.

Some parameters are abstract:
- The sort comparator is the constant `less` of a `BuddyModel`. Its definition
  is not part of this model. The sortedness results assume only that it is a
  strict weak order.
- Case folding is a per-character function `fold`.
- The roster is a `Roster` object. Only its current contact list is modelled.

The list need not always be filtered and sorted:
- `setRoster` and `onSyncFinished` (src/qml/src/buddymodel.cpp:48, 151-154) put
  the roster's list in verbatim, with no filtering and no sorting. After them
  the list need be neither filtered nor sorted.
- So `AddBuddy` is specified on any list, sorted or not, by the exact index the
  binary search returns. Its sortedness guarantee is conditional on the list
  being sorted beforehand.
- When the list is the rebuild of the roster (as after `setFilterByName`),
  adding a contact keeps it the rebuild of the roster with that contact
  appended.
- Nothing is assumed about how the comparator orders contacts with equal
  names.

## Model

| member | source | states |
|---|---|---|
| Buddies.CheckContact | src/qml/src/buddymodel.cpp:156-163 | With friends-only on, a non-friend is rejected. Otherwise an empty name filter accepts the contact. A non-empty filter accepts exactly when the case-folded filter occurs at some position of the case-folded name. |
| Text.Contains | src/qml/src/buddymodel.cpp:161 | The substring search used for the name test is true exactly when the needle occurs at some index of the haystack. |
| Buddies.CheckContactIgnoresCase | src/qml/src/buddymodel.cpp:160-161 | The test ignores case: two contacts with the same friend flag whose names fold alike get the same answer, whatever the folding. |
| Buddies.CheckContactFoldedFilter | src/qml/src/buddymodel.cpp:160-161 | Folding the filter beforehand changes no answer, given that folding a folded character leaves it as it is. |
| Buddies.Filter | src/qml/src/buddymodel.cpp:101-102 | The roster contacts that pass CheckContact: each accepted contact as often as in the roster, no rejected one. |
| Ordering.BinarySearch | src/qml/src/buddymodel.cpp:133 | The lower-bound search on a window starting at `lo` with `n` elements returns an index within that window. |
| Ordering.BinarySearchSplits | src/qml/src/buddymodel.cpp:133 | On a list partitioned for the key, the search returns the partition point: every element before it is below the key and none from it on is. |
| Ordering.LowerBoundSplits | src/qml/src/buddymodel.cpp:133-134 | On a partitioned list, the lower-bound index splits the list into the elements below the key and the rest. |
| Ordering.SortedIsPartitioned | src/qml/src/buddymodel.cpp:133 | A list sorted under a strict weak order is partitioned for every key, as the lower-bound search needs. |
| Ordering.LowerBound | src/qml/src/buddymodel.cpp:133-134 | The binary search loop returns the lower-bound index. On a partitioned list, every element before it is below the key and none after it is. |
| Ordering.InsertAtLowerBound | src/qml/src/buddymodel.cpp:133-137 | Inserting at the index the search returns yields the sorted insertion of the contact. |
| Ordering.InsertSorted | src/qml/src/buddymodel.cpp:133-137 | Sorted insertion adds exactly one element: the length grows by 1 and the multiset gains the contact. |
| Ordering.InsertSortedPlaces | src/qml/src/buddymodel.cpp:133-138 | The new contact sits at the lower-bound index. Removing it gives back the old list in its old order. On a partitioned list, every earlier element is below it and no later one is. |
| Ordering.InsertSortedKeepsSorted | src/qml/src/buddymodel.cpp:133-137 | Inserting into a sorted list under a strict weak order leaves it sorted. |
| Ordering.RemoveAtKeepsSorted | src/qml/src/buddymodel.cpp:147 | Removing one element from a sorted list leaves it sorted. |
| Ordering.InsertAll | src/qml/src/buddymodel.cpp:100-106 | Inserting a sequence of contacts one by one yields a permutation of that sequence. |
| Ordering.InsertAllSorted | src/qml/src/buddymodel.cpp:100-106 | Inserting contacts one by one at their lower bounds, from an empty list, yields a sorted list under any strict weak order. |
| Buddies.RebuiltIsFilteredAndSorted | src/qml/src/buddymodel.cpp:100-107 | A rebuilt list holds exactly the accepted roster contacts, each as often as in the roster. It is sorted when the comparator is a strict weak order. |
| Buddies.IncrementalAddMatchesRebuild | src/qml/src/buddymodel.cpp:101-105 | One step of the rebuild loop: the rebuild of a roster extended by one contact is the old rebuild with the contact inserted at its lower bound if accepted, and unchanged otherwise. |
| Buddies.RebuildStep | src/qml/src/buddymodel.cpp:101-105 | Iteration i of the rebuild loop turns the rebuild of the first i roster contacts into the rebuild of the first i + 1. |
| Buddies.AddedContactRebuilds | src/qml/src/buddymodel.cpp:129-139 | Handling a new contact the way addBuddy does turns the rebuild of a roster into the rebuild of the roster with that contact appended. |
| Buddies.IndexOfId | src/qml/src/buddymodel.cpp:121-127 | The result is the smallest index whose contact has the id, or -1 exactly when no contact has it. |
| Buddies.BuddyModel.FindContact | src/qml/src/buddymodel.cpp:121-127 | The linear scan returns that first index, or -1. |
| Buddies.BuddyModel.AddBuddy | src/qml/src/buddymodel.cpp:129-139 | A rejected contact leaves the list unchanged. An accepted one is inserted at its lower bound. A list sorted before is sorted after, under a strict weak order. A list that was the rebuild of the roster becomes the rebuild of the roster with the contact appended. |
| Buddies.BuddyModel.RemoveFriend | src/qml/src/buddymodel.cpp:141-149 | An absent id changes nothing. Otherwise exactly the element at the first index with that id is removed, and the others keep their order. A sorted list stays sorted. |
| Buddies.BuddyModel.SetFilterByName | src/qml/src/buddymodel.cpp:95-108 | The filter is stored. The list becomes the sorted insertion of the accepted roster contacts: exactly those contacts, sorted when the comparator is a strict weak order. |
| Buddies.BuddyModel.SetBuddies | src/qml/src/buddymodel.cpp:55-61 | The list becomes the given list verbatim, and `Count` (`count()`, buddymodel.cpp:68-71) then equals its length. |
| Buddies.BuddyModel.Clear | src/qml/src/buddymodel.cpp:115-120 | The list becomes empty. |
| Buddies.BuddyModel.SetRoster | src/qml/src/buddymodel.cpp:42-53 | The model is bound to the roster and shows the roster's list verbatim. |
| Buddies.BuddyModel.OnSyncFinished | src/qml/src/buddymodel.cpp:151-154 | The list becomes the roster's list verbatim, and `Count` then equals its length. |
| Buddies.BuddyModel.constructor | src/qml/src/buddymodel.cpp:32-40 | A new model has friends-only on, an empty name filter, no roster and an empty list. |
| Attachments.IndexOfFindsFirst | src/api/attachment.cpp:56 | The table lookup returns the first position holding the name, or -1 exactly when no position does. |
| Attachments.GetType | src/api/attachment.cpp:54-57 | A name outside the table gets Other (-1). A name in the table gets a code at which the table holds that name. |
| Attachments.GetTypeOfTable | src/api/attachment.cpp:31-42 | Each table name maps to its own position, from "photo" to 0 up to "page" to 10. |
| Attachments.IntegerTagIsOther | src/api/attachment.cpp:95-102 | A type tag that is an integer turns into a decimal string that names no table entry, so the type is Other. |
| Attachments.NewAttachment | src/api/attachment.cpp:46-47 | A default attachment has type Other, and every property lookup returns the caller's default. |
| Attachments.Property | src/api/attachment.cpp:153-156 | A lookup, through the map lookup `Variants.Value`, returns the stored value when the name is present and the caller's default otherwise. SetProperty and NewAttachment state their results through it. |
| Attachments.Decoded | src/api/attachment.cpp:92-103 | The nested map is `Variants.ToMap` of the value under the type name: a map value gives its entries, any other value none. The type code is GetType of the "type" string. The keys are exactly the nested map's keys plus "type". "type" holds the code, and every other nested key keeps its value. |
| Attachments.SetData | src/api/attachment.cpp:92-103 | Clearing and then copying entry by entry gives the decoded attachment of the input map, whatever the attachment held before. |
| Attachments.SetProperty | src/api/attachment.cpp:163-166 | Reading the name back returns the new value for any default. Every other property and the type code are unchanged. |
| Attachments.FromData | src/api/attachment.cpp:115-118 | A new attachment is the decoded attachment of the map the value holds. |
| Attachments.FromVariantList | src/api/attachment.cpp:120-126 | The result has the same length as the input, and element i is the decoded attachment of element i of the input. |
| Attachments.ToVariantList | src/api/attachment.cpp:128-134 | The result has the same length as the input, and element i is the property map of attachment i. |
| Attachments.OfKind | src/api/attachment.cpp:136-142 | The group of a type code holds each attachment of the list with that code exactly as often as the list does, and no other attachment. |
| Attachments.InsertExtendsGroups | src/api/attachment.cpp:139-140 | The multi-insert `Attachments.Insert` of the next attachment under its type code extends a grouping of a list to the list with that attachment appended. |
| Attachments.ToHash | src/api/attachment.cpp:136-142 | The keys are exactly the type codes occurring in the list. Each key holds exactly the attachments of that code. |
| Variants.ToString | src/api/attachment.cpp:95 | A string converts to itself. An integer converts to a canonical decimal numeral: no leading zeros, a minus sign exactly when the integer is negative, and it reads back as the integer. Booleans convert to "true" and "false", and other values to "". |
| Variants.NumeralUnique | src/api/attachment.cpp:95 | Two canonical numerals with the same value are the same string, so the ToString contract fixes the type name an integer tag yields. |

## Left out

- Qt model/view plumbing is not modelled: row-range insert/remove/reset notifications, `roleNames`, `data(QModelIndex, role)`, `rowCount` (it equals `count`). This includes the row range `0..count` announced in `setBuddies`.
- Signal/slot connections and the guarded roster pointer in `setRoster` are not modelled. Only their effect on the list is.
- A null roster is a null dereference in the source for `setRoster` (buddymodel.cpp:48), `setFilterByName` and `onSyncFinished`. So `SetRoster` takes a non-null `Roster`, and the other two require a bound roster.
- Contacts are values (`id`, `name`, `isFriend`), not shared pointers. A contact whose name or friend flag changes after it was inserted is not modelled.
- The friends-only flag starts as true. Its setter `setFriendsOnly` is declared in a header that is not part of this model.
- The getters `roster()` and `filterByName()` (buddymodel.cpp:63-66, 110-113) are the public fields `roster` and `filterByName` of `BuddyModel`.
- The comparator `m_buddyComparator` and Unicode case folding are abstract parameters, because their definitions are not part of this model.
- `qLowerBound` belongs to the Qt library. Its body is modelled as the standard halving lower-bound search.
- src/api/roster.h holds only declarations. Its network-backed `sync` is not modelled.
- `QSharedData` copy-on-write sharing, the copy constructor and `operator=` are not modelled. An attachment is a value, and updates (`setData`, `setProperty`) return the updated value.
- `toVariantMap` is not modelled. It depends on `QString::number` formatting and on the kind of hash, which attachment.h decides; this model does not cover attachment.h.
- The getters `data()` and `type()` (attachment.cpp:105-113) are the fields `data` and `kind` of the `Attachment` datatype.
- `dynamicPropertyNames` is not modelled. It returns the keys of the property map, which `Attachment.data` already exposes.
- Attachments.ToHash: models `Hash` as a multi-hash grouping each type code's attachments as a multiset. The typedef is in attachment.h, which this model does not cover, so the order in which a group's values come back is not modelled.
- Variants: only null, bool, integer, string, list and map values are modelled. Other kinds, such as doubles and dates, and a map held as a hash variant are left out.
