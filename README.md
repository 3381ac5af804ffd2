# Elements sub-endpoint of a page builder's document REST API

This project models the `Elements` sub-endpoint of the page builder's
document data API. The endpoint has two operations:

- `get_items` lists a document's top-level elements, keyed by element `id`.
- `get_item` looks up one element by id.

The main part is `get_items`. It turns the positional PHP list returned by
`get_elements_data()` into a table keyed by each element's `id`, and it
does this in place. A `foreach` over a copy of the list stores each
element at `$elements[ $element['id'] ]` and then `unset`s the element's
original position.

The model has three modules:

- `Wrappers` holds `Option` and `Result`.
- `Php` holds the PHP semantics the code relies on:
  - scalar values and truthiness (`if ( $document_id )`);
  - the conversion of an array offset to a key. A string that is a
    canonical decimal integer in the 64-bit range (`"7"`, `"-12"`, but not
    `"07"`, `"-0"` or `"+1"`) becomes an integer key, as the PHP manual's
    section on arrays describes. `null` becomes `""` and booleans become 0 and 1.
- `Elements` holds the endpoint:
  - `GetItems` is a method with the `while` loop over the snapshot. It is
    proved equal to `Rekeyed`, a closed-form description of the table.
    That description says the last store to a key survives unless the key
    is a position unset at or after that store.
  - `GetItem` is the guard of `get_item`.
  - the constants `NAME` (`get_name`) and `FORMAT` (`get_format`).
  - lemmas about the re-keyed table.

The document registry (`Plugin::$instance->documents->get( $id )->get_elements_data()`)
is a parameter: a function from `document_id` to an optional list of
elements. `None` stands for a registry that cannot resolve the id. PHP then
calls a method on `false`, which aborts the request. The model returns
`Err(DocumentNotFound)`. The recursive search `Module::find_element_recursive`
used by `get_item` is also a parameter.

Two points where the code does more than a quick reading suggests:

- The code tests `document_id` for PHP truthiness, not just for presence,
  so `"0"`, `0`, `false` and `""` also give the empty result.
- Keys are the canonicalised ids, not the raw id strings. An id that matches
  a position of the list can make an element disappear (see Findings).
  So "every element appears under its id" holds when no id is a position
  (`CleanRekeying`); an element is lost exactly when its key is a position
  at or after its last store (`RekeyedMembership`).

## Model

| member | source | states |
|---|---|---|
| `Php.Truthy` | core/editor/data/documents/endpoints/sub-endpoints/elements.php:27 | the guard `if ( $document_id )` (also at line 44) fails for exactly null, false, 0, "" and "0" |
| `Php.StringKey` | core/editor/data/documents/endpoints/sub-endpoints/elements.php:32 | a string offset is either kept as its own string key or becomes an integer key within the 64-bit range |
| `Php.DecimalStringKey` | core/editor/data/documents/endpoints/sub-endpoints/elements.php:32 | a string id lands on integer key i if and only if it is the decimal spelling of i |
| `Php.IntToDecimalKey` | core/editor/data/documents/endpoints/sub-endpoints/elements.php:32 | the decimal spelling of every in-range integer is read back as that integer key |
| `Php.IntKeyIsDecimal` | core/editor/data/documents/endpoints/sub-endpoints/elements.php:32 | a string read as an integer key is that integer's decimal spelling (no padding, no "-0") |
| `Php.StringKeyInjective` | core/editor/data/documents/endpoints/sub-endpoints/elements.php:32 | two different string ids never select the same array slot |
| `Php.ToKeyAsString` | core/editor/data/documents/endpoints/sub-endpoints/elements.php:32 | an integer id selects the same slot as its decimal string, a boolean the same as "1" or "0", null the same as ""; integer keys stay in the 64-bit range |
| `Elements.KeyOf` | core/editor/data/documents/endpoints/sub-endpoints/elements.php:32 | the key `$element['id']` selects is an in-range integer, or a string that is the id's own spelling ("" for a null id) |
| `Elements.RouteShape` | core/editor/data/documents/endpoints/sub-endpoints/elements.php:9-15 | the route name `elements` and the item format `{element_id}` are single path segments, the latter naming the element id |
| `Elements.LastWrite` | core/editor/data/documents/endpoints/sub-endpoints/elements.php:31-32 | finds the last of the first n iterations that stored at a key, or reports that none did |
| `Elements.TableAfterMembership` | core/editor/data/documents/endpoints/sub-endpoints/elements.php:31-34 | after n iterations a key is present exactly when its last store was not followed by the unset of that position, or it is a position not yet visited |
| `Elements.InitialTable` | core/editor/data/documents/endpoints/sub-endpoints/elements.php:28-31 | before the loop the table is the fetched list |
| `Elements.StepKey` | core/editor/data/documents/endpoints/sub-endpoints/elements.php:32-34 | in one iteration a key ends up present exactly when it is the element's key or was present, and it is not the position being unset; its value is the element if it is the element's key, else unchanged |
| `Elements.StepTable` | core/editor/data/documents/endpoints/sub-endpoints/elements.php:32-34 | one iteration (store at the id key, then unset the position) takes the table after n iterations to the table after n+1 |
| `Elements.GetItems` | core/editor/data/documents/endpoints/sub-endpoints/elements.php:23-38 | a falsy document_id gives the empty array; an unresolvable one gives the registry's failure; otherwise the loop over the original entries in order yields `Rekeyed` of the document's list, with every entry under its own element's key |
| `Elements.GetItem` | core/editor/data/documents/endpoints/sub-endpoints/elements.php:40-50 | a falsy document_id gives the untouched empty result; with a truthy one the result is an error exactly when the registry cannot resolve the document, and otherwise it is the search's answer for that document's elements, passed back unchanged |
| `Elements.GetItemGuard` | core/editor/data/documents/endpoints/sub-endpoints/elements.php:41-49 | with a falsy document_id the result depends on neither the registry nor the search |
| `Elements.GetItemReadsOnlyThatDocument` | core/editor/data/documents/endpoints/sub-endpoints/elements.php:44-47 | with a truthy document_id the result depends only on the registry's answer for that id and on the search's answer for that document's elements |
| `Elements.EntriesKeyedById` | core/editor/data/documents/endpoints/sub-endpoints/elements.php:31-35 | every entry is a whole top-level element, children included, whose canonical id is its key, and it is the last element with that key |
| `Elements.RekeyedMembership` | core/editor/data/documents/endpoints/sub-endpoints/elements.php:31-35 | a key is in the result if and only if some element has it and it is not a position at or after the last such element |
| `Elements.DuplicateIdLastWins` | core/editor/data/documents/endpoints/sub-endpoints/elements.php:31-32 | when elements i < j share a key, j is the last element with that key, and the key is not a position at or after j, the result holds element j under that key |
| `Elements.ResultKeysAreIds` | core/editor/data/documents/endpoints/sub-endpoints/elements.php:28-32 | every key of the result is the key of a top-level element |
| `Elements.OneLevelOnly` | core/editor/data/documents/endpoints/sub-endpoints/elements.php:28-32 | a nested child whose key no top-level element shares is not promoted to a key of the result |
| `Elements.RekeyedSize` | core/editor/data/documents/endpoints/sub-endpoints/elements.php:31-35 | the result never has more entries than the list |
| `Elements.CleanRekeying` | core/editor/data/documents/endpoints/sub-endpoints/elements.php:31-35 | when no id is a position, the keys are exactly the ids, no position survives, and there is one entry per distinct id |
| `Elements.PendingPositionUnset` | core/editor/data/documents/endpoints/sub-endpoints/elements.php:31-34 | an element stored at a position still to be visited is present right after its store and gone once that position is unset; only a later element with the same key brings the key back |
| `Elements.RekeyPrefix` | core/editor/data/documents/endpoints/sub-endpoints/elements.php:31-32 | storing the first n elements into a fresh table gives their ids as keys, each with its last element |
| `Elements.RekeyById` | core/editor/data/documents/endpoints/sub-endpoints/elements.php:31-32 | the fresh-table re-keying keeps every id, each under its own key |
| `Elements.InPlaceAgreesWithFresh` | core/editor/data/documents/endpoints/sub-endpoints/elements.php:31-35 | when no id is a position, the in-place loop produces the same table as the fresh-table re-keying |
| `Elements.SelfIndexedIdDropped` | core/editor/data/documents/endpoints/sub-endpoints/elements.php:31-34 | a single element with id "0" is lost by the in-place loop and kept by the fresh table |
| `Elements.SectionWithWidget` | core/editor/data/documents/endpoints/sub-endpoints/elements.php:28-37 | a section holding a widget is listed under the section's id only, with the widget still inside it |
| `Elements.IdCollidesWithLaterPosition` | core/editor/data/documents/endpoints/sub-endpoints/elements.php:31-34 | for the list with ids "1" and "x", the first element is stored at key 1 and removed by unsetting position 1, leaving only "x" |
| `Elements.TwoElementCollision` | core/editor/data/documents/endpoints/sub-endpoints/elements.php:31-34 | for any two-element list whose first key is position 1 and whose second key is a string key, only the second element survives, under its own key |
| `Elements.RepeatedIdAtLastPosition` | core/editor/data/documents/endpoints/sub-endpoints/elements.php:31-34 | for two elements that both have key 1 (ids "1" and "1"), the second store is removed by unsetting position 1, so the result is empty |

## Left out

- The order of a PHP array is not modelled. The table is a map. The response's entry order, and the fact that `json_encode` writes an array with keys 0 .. n-1 as a JSON list, are not captured.
- Floats and arrays are not modelled as PHP values. A float or array `document_id` (`0.0` and `[]` are falsy) and a float element id are outside the model. Integers are 64-bit (`PhpInt`).
- An element without an `id` entry has `id` null in the model. The warning PHP raises when reading it is not modelled.
- The fetched data is taken to be a PHP list (positions 0 .. n-1). A document whose stored data decodes to an object with string keys is not modelled.
- The document registry and `get_elements_data()` are inputs, not behaviour. Their storage access and their own errors are not modelled beyond "resolved or not".
- `Module::find_element_recursive` belongs to a separate plugin whose source is not part of this model. It is a parameter, and its search order and results are not modelled.
- Elements.GetItem: does not say which element the search finds, because the search is not part of this model; it proves only that the search's answer is passed back unchanged.
- `register`, `register_item_route`, the `SubEndpoint` base class, request-parameter parsing and response serialisation are REST routing plumbing and are left out.
- modules/admin-top-bar/assets/js/admin.js mounts a React component into the page. It is UI glue with no logic to verify.

## Findings

| source | as written | input that shows it | evidently intended | confidence | as-written member | corrected member |
|---|---|---|---|---|---|---|
| core/editor/data/documents/endpoints/sub-endpoints/elements.php:31-35 | the loop stores each element at its id and then unsets its position, so an element whose id canonicalises to its own or a later position is removed again | a document whose only element has id `"0"`: the listing is empty instead of holding that element under `0` | every top-level element is listed under its id, with the last duplicate winning | medium (not executed; needs an id that is a small decimal integer) | `Elements.SelfIndexedIdDropped` | `Elements.RekeyById` |

`GetItems` still models the code as written. `RekeyById` is the fresh-table
definition that keeps every id. `InPlaceAgreesWithFresh` proves the two
agree whenever no id collides with a position. That holds for every list
whose ids are neither booleans nor integers, or decimal-integer strings,
smaller than the list's length (`true` selects key 1 and `false` key 0).
