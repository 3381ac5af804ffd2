/**
 The `Elements` sub-endpoint of a document: listing a document's top-level
 elements keyed by their `id` (`get_items`) and looking one element up
 (`get_item`).

 A PHP array is modelled as a map from Key to its value. The document
 registry (`Plugin::$instance->documents->get( $id )->get_elements_data()`)
 is a parameter: a function from the `document_id` to the document's list
 of elements, or None when the registry cannot resolve the id.
 */
module Elements {
  import opened Wrappers
  import opened Php

  /** The route name (`get_name`). */
  const NAME: string := "elements"

  /** The item route's path format (`get_format`): one segment, the element id. */
  const FORMAT: string := "{element_id}"

  /**
   One element of a document as `get_elements_data()` returns it: its `id`
   (null when the entry has none), its other fields (`elType`, `settings`, …,
   opaque here) and its nested child elements.
   */
  datatype Element = Element(id: PhpValue, attributes: map<string, PhpValue>, elements: seq<Element>)

  /** The registry could not resolve the requested `document_id`. */
  datatype Error = DocumentNotFound

  type Registry = PhpValue -> Option<seq<Element>>

  /**
   The key at which `$elements[ $element['id'] ] = $element` stores an
   element: an integer within the range of a PHP `int`, or a string that is
   the id's own spelling ("" for a null id).
   */
  function KeyOf(e: Element): (k: Key)
    ensures k.IntKey? ==> INT_MIN <= k.i <= INT_MAX
    ensures k.StrKey? ==> e.id == Str(k.s) || (e.id == Null && k.s == "")
  {
    ToKey(e.id)
  }

  /** Both route constants are single path segments; the item route's names the element id. */
  lemma RouteShape()
    ensures NAME != [] && '/' !in NAME
    ensures '/' !in FORMAT && FORMAT == "{" + "element_id" + "}"
  {
  }

  /** The PHP list `get_elements_data()` returns: positions 0 .. n-1 as integer keys. */
  function AsList(s: seq<Element>): map<Key, Element>
  {
    map i | 0 <= i < |s| :: IntKey(i) := s[i]
  }

  // ---------------------------------------------------------------------
  // The table after the first k iterations of the re-keying loop, in closed form

  /** Key `k` is one of the positions lo .. hi-1, which the loop unsets at steps lo .. hi-1. */
  predicate Unset(k: Key, lo: int, hi: int)
  {
    k.IntKey? && lo <= k.i < hi
  }

  /** The last of the first `n` iterations that stored an element at key `k`, if any. */
  function LastWrite(s: seq<Element>, n: nat, k: Key): (w: Option<nat>)
    requires n <= |s|
    ensures w.Some? ==> w.value < n && KeyOf(s[w.value]) == k
    ensures w.Some? ==> forall j :: w.value < j < n ==> KeyOf(s[j]) != k
    ensures w.None? ==> forall j :: 0 <= j < n ==> KeyOf(s[j]) != k
    decreases n
  {
    if n == 0 then None
    else if KeyOf(s[n - 1]) == k then Some(n - 1)
    else LastWrite(s, n - 1, k)
  }

  /**
   Whether key `k` is present after `n` iterations: if some iteration stored
   at `k`, the last such store survives unless `k` is a position unset at or
   after it; otherwise only the original positions not yet unset remain.
   */
  predicate Live(s: seq<Element>, n: nat, k: Key)
    requires n <= |s|
  {
    match LastWrite(s, n, k)
    case Some(w) => !Unset(k, w, n)
    case None => Unset(k, n, |s|)
  }

  /** The value at a present key after `n` iterations. */
  function ValueAt(s: seq<Element>, n: nat, k: Key): Element
    requires n <= |s| && Live(s, n, k)
  {
    match LastWrite(s, n, k)
    case Some(w) => s[w]
    case None => s[k.i]
  }

  /** The keys of the first `n` elements. */
  function IdsUpTo(s: seq<Element>, n: nat): set<Key>
    requires n <= |s|
  {
    set j | 0 <= j < n :: KeyOf(s[j])
  }

  /** The keys of all top-level elements. */
  function Ids(s: seq<Element>): set<Key>
  {
    IdsUpTo(s, |s|)
  }

  /** Every key the table can ever hold: the element keys and the original positions. */
  function Candidates(s: seq<Element>): set<Key>
  {
    Ids(s) + set i | 0 <= i < |s| :: IntKey(i)
  }

  lemma LiveIsCandidate(s: seq<Element>, n: nat, k: Key)
    requires n <= |s| && Live(s, n, k)
    ensures k in Candidates(s)
  {
    match LastWrite(s, n, k)
    case Some(w) =>
      assert KeyOf(s[w]) == k;
    case None =>
      assert IntKey(k.i) == k;
  }

  function TableAfter(s: seq<Element>, n: nat): (m: map<Key, Element>)
    requires n <= |s|
  {
    map k | k in Candidates(s) && Live(s, n, k) :: ValueAt(s, n, k)
  }

  /** What the re-keying loop of `get_items` leaves in `$elements`. */
  function Rekeyed(s: seq<Element>): map<Key, Element>
  {
    TableAfter(s, |s|)
  }

  /** A key is in the table after `n` iterations exactly when it is Live. */
  lemma TableAfterMembership(s: seq<Element>, n: nat, k: Key)
    requires n <= |s|
    ensures k in TableAfter(s, n) <==> Live(s, n, k)
    ensures k in TableAfter(s, n) ==> TableAfter(s, n)[k] == ValueAt(s, n, k)
  {
    if Live(s, n, k) {
      LiveIsCandidate(s, n, k);
    }
  }

  /** Before the first iteration the table is the list itself. */
  lemma InitialTable(s: seq<Element>)
    ensures TableAfter(s, 0) == AsList(s)
  {
    forall k
      ensures k in TableAfter(s, 0) <==> k in AsList(s)
      ensures k in AsList(s) ==> TableAfter(s, 0)[k] == AsList(s)[k]
    {
      TableAfterMembership(s, 0, k);
    }
  }

  /** One iteration, seen from a single key. */
  lemma StepKey(s: seq<Element>, n: nat, k: Key)
    requires n < |s|
    ensures k in TableAfter(s, n + 1) <==> (k == KeyOf(s[n]) || k in TableAfter(s, n)) && k != IntKey(n)
    ensures k in TableAfter(s, n + 1) ==>
              TableAfter(s, n + 1)[k] == if k == KeyOf(s[n]) then s[n] else TableAfter(s, n)[k]
  {
    TableAfterMembership(s, n, k);
    TableAfterMembership(s, n + 1, k);
    if KeyOf(s[n]) == k {
      assert LastWrite(s, n + 1, k) == Some(n);
    } else {
      assert LastWrite(s, n + 1, k) == LastWrite(s, n, k);
    }
  }

  /** One iteration: store the element at its key, then unset its position. */
  lemma StepTable(s: seq<Element>, n: nat)
    requires n < |s|
    ensures TableAfter(s, n)[KeyOf(s[n]) := s[n]] - {IntKey(n)} == TableAfter(s, n + 1)
  {
    var before, next := TableAfter(s, n), TableAfter(s, n + 1);
    forall k
      ensures k in next <==> (k == KeyOf(s[n]) || k in before) && k != IntKey(n)
      ensures k in next ==> next[k] == if k == KeyOf(s[n]) then s[n] else before[k]
    {
      StepKey(s, n, k);
    }
    StoreThenUnset(before, next, KeyOf(s[n]), s[n], IntKey(n));
  }

  /** A map that agrees key by key with "store, then remove" is that map. */
  lemma StoreThenUnset(before: map<Key, Element>, next: map<Key, Element>, key: Key, v: Element, pos: Key)
    requires forall k :: k in next <==> (k == key || k in before) && k != pos
    requires forall k :: k in next ==> next[k] == if k == key then v else before[k]
    ensures before[key := v] - {pos} == next
  {
  }

  // ---------------------------------------------------------------------
  // get_items

  /**
   `get_items`: with a truthy `document_id`, fetch the document's top-level
   elements and re-key them in place, visiting a snapshot of the original
   entries in order (a by-value `foreach` iterates over a copy): store each
   element at its `id`, then unset its original position.
   */
  method GetItems(documentId: PhpValue, registry: Registry) returns (r: Result<map<Key, Element>, Error>)
    ensures !Truthy(documentId) ==> r == Ok(map[])
    ensures Truthy(documentId) && registry(documentId).None? ==> r == Err(DocumentNotFound)
    ensures Truthy(documentId) && registry(documentId).Some? ==> r == Ok(Rekeyed(registry(documentId).value))
    ensures r.Ok? ==> forall k :: k in r.value ==> KeyOf(r.value[k]) == k
  {
    var list: seq<Element> := [];
    if Truthy(documentId) {
      var fetched := registry(documentId);
      if fetched.None? {
        return Err(DocumentNotFound);
      }
      list := fetched.value;
    }
    var elements := AsList(list);
    InitialTable(list);
    var snapshot := list;
    var n := 0;
    while n < |snapshot|
      invariant 0 <= n <= |snapshot|
      invariant elements == TableAfter(snapshot, n)
    {
      var element := snapshot[n];
      StepTable(snapshot, n);
      elements := elements[KeyOf(element) := element];
      elements := elements - {IntKey(n)};
      n := n + 1;
    }
    EntriesKeyedById(list);
    return Ok(elements);
  }

  // ---------------------------------------------------------------------
  // get_item

  /** The outcome of `get_item`: the untouched `[]`, or what the search returned. */
  datatype ItemResult<R> = NoDocument | Searched(found: R)

  /**
   `get_item`: with a truthy `document_id`, hand the document's elements to
   the recursive search `find` (a foreign helper, a parameter here); without
   one, return the empty array and look nothing up.
   */
  function GetItem<R>(elementId: string, documentId: PhpValue, registry: Registry,
                      find: (seq<Element>, string) -> R): (r: Result<ItemResult<R>, Error>)
    ensures !Truthy(documentId) ==> r == Ok(NoDocument)
    ensures Truthy(documentId) ==> r != Ok(NoDocument)
    ensures Truthy(documentId) ==> (r.Err? <==> registry(documentId).None?)
    ensures r.Err? ==> r.error == DocumentNotFound
    ensures r.Ok? && r.value.Searched? ==>
              registry(documentId).Some? && r.value.found == find(registry(documentId).value, elementId)
  {
    if Truthy(documentId) then
      match registry(documentId)
      case None => Err(DocumentNotFound)
      case Some(data) => Ok(Searched(find(data, elementId)))
    else
      Ok(NoDocument)
  }

  /** Without a truthy `document_id` neither the registry nor the search is consulted. */
  lemma GetItemGuard<R>(elementId: string, documentId: PhpValue, registry1: Registry, registry2: Registry,
                        find1: (seq<Element>, string) -> R, find2: (seq<Element>, string) -> R)
    requires !Truthy(documentId)
    ensures GetItem(elementId, documentId, registry1, find1) == GetItem(elementId, documentId, registry2, find2)
  {
  }

  /**
   With a truthy `document_id` the result depends only on that document's
   elements and on what the search returns for them: registries that agree
   on this id, and searches that agree on its elements, give the same result.
   */
  lemma GetItemReadsOnlyThatDocument<R>(elementId: string, documentId: PhpValue,
                                        registry1: Registry, registry2: Registry,
                                        find1: (seq<Element>, string) -> R, find2: (seq<Element>, string) -> R)
    requires Truthy(documentId) && registry1(documentId) == registry2(documentId)
    requires registry1(documentId).Some? ==>
               find1(registry1(documentId).value, elementId) == find2(registry1(documentId).value, elementId)
    ensures GetItem(elementId, documentId, registry1, find1) == GetItem(elementId, documentId, registry2, find2)
  {
  }

  // ---------------------------------------------------------------------
  // Properties of the re-keyed table

  /**
   Every entry of the result is a whole top-level element (children
   included) stored under its own key, and it is the last element with that
   key: later duplicates overwrite earlier ones.
   */
  lemma EntriesKeyedById(s: seq<Element>)
    ensures forall k :: k in Rekeyed(s) ==> KeyOf(Rekeyed(s)[k]) == k
    ensures forall k :: k in Rekeyed(s) ==>
              exists w :: 0 <= w < |s| && Rekeyed(s)[k] == s[w] && KeyOf(s[w]) == k &&
                          forall j :: w < j < |s| ==> KeyOf(s[j]) != k
  {
    forall k | k in Rekeyed(s)
      ensures KeyOf(Rekeyed(s)[k]) == k
      ensures exists w :: 0 <= w < |s| && Rekeyed(s)[k] == s[w] && KeyOf(s[w]) == k &&
                          forall j :: w < j < |s| ==> KeyOf(s[j]) != k
    {
      TableAfterMembership(s, |s|, k);
      var w := LastWrite(s, |s|, k).value;
      assert Rekeyed(s)[k] == s[w];
    }
  }

  /**
   Key membership in the result: a key is present if and only if some
   element has it and it is not a position at or after the last such
   element (that position's `unset` removes it).
   */
  lemma RekeyedMembership(s: seq<Element>, k: Key)
    ensures k in Rekeyed(s) <==>
              exists w :: 0 <= w < |s| && KeyOf(s[w]) == k && !Unset(k, w, |s|) &&
                          forall j :: w < j < |s| ==> KeyOf(s[j]) != k
  {
    TableAfterMembership(s, |s|, k);
    if k !in Rekeyed(s) {
      forall w | 0 <= w < |s| && KeyOf(s[w]) == k && (forall j :: w < j < |s| ==> KeyOf(s[j]) != k)
        ensures Unset(k, w, |s|)
      {
        assert LastWrite(s, |s|, k) == Some(w);
      }
    }
  }

  /**
   Duplicate ids: of the elements sharing a key, the one with the largest
   index is the one the result holds, unless that key is a position still
   unset after it.
   */
  lemma DuplicateIdLastWins(s: seq<Element>, i: nat, j: nat)
    requires i < j < |s| && KeyOf(s[i]) == KeyOf(s[j])
    requires forall t :: j < t < |s| ==> KeyOf(s[t]) != KeyOf(s[j])
    requires !Unset(KeyOf(s[j]), j, |s|)
    ensures KeyOf(s[j]) in Rekeyed(s) && Rekeyed(s)[KeyOf(s[j])] == s[j]
  {
    TableAfterMembership(s, |s|, KeyOf(s[j]));
    assert LastWrite(s, |s|, KeyOf(s[j])) == Some(j);
  }

  /** Every key of the result is the key of some top-level element. */
  lemma ResultKeysAreIds(s: seq<Element>)
    ensures Rekeyed(s).Keys <= Ids(s)
  {
    forall k | k in Rekeyed(s) ensures k in Ids(s) {
      EntriesKeyedById(s);
      var w :| 0 <= w < |s| && Rekeyed(s)[k] == s[w] && KeyOf(s[w]) == k;
    }
  }

  /**
   One level only: a nested child whose key no top-level element shares is
   not promoted to a key of the result.
   */
  lemma OneLevelOnly(s: seq<Element>, j: nat, c: Element)
    requires j < |s| && c in s[j].elements
    requires KeyOf(c) !in Ids(s)
    ensures KeyOf(c) !in Rekeyed(s)
  {
    ResultKeysAreIds(s);
  }

  lemma {:induction false} IdsUpToSize(s: seq<Element>, n: nat)
    requires n <= |s|
    ensures |IdsUpTo(s, n)| <= n
    decreases n
  {
    if n > 0 {
      IdsUpToSize(s, n - 1);
      assert IdsUpTo(s, n) == IdsUpTo(s, n - 1) + {KeyOf(s[n - 1])};
    }
  }

  /** The result never has more entries than the document has top-level elements. */
  lemma RekeyedSize(s: seq<Element>)
    ensures |Rekeyed(s)| <= |s|
  {
    ResultKeysAreIds(s);
    IdsUpToSize(s, |s|);
    SubsetSize(Rekeyed(s).Keys, Ids(s));
  }

  lemma SubsetSize<T>(a: set<T>, b: set<T>)
    requires a <= b
    ensures |a| <= |b|
  {
    assert b == a + (b - a);
  }

  /** No element's key is one of the list's own positions. */
  predicate NoPositionalIds(s: seq<Element>)
  {
    forall j :: 0 <= j < |s| ==> !Unset(KeyOf(s[j]), 0, |s|)
  }

  /**
   Without collisions between ids and positions the re-keying is clean: the
   keys are exactly the ids, no position survives, and there is one entry
   per distinct id.
   */
  lemma CleanRekeying(s: seq<Element>)
    requires NoPositionalIds(s)
    ensures Rekeyed(s).Keys == Ids(s)
    ensures forall i :: 0 <= i < |s| ==> IntKey(i) !in Rekeyed(s)
    ensures |Rekeyed(s)| == |Ids(s)|
  {
    forall k | k in Ids(s) ensures k in Rekeyed(s) {
      var j :| 0 <= j < |s| && KeyOf(s[j]) == k;
      TableAfterMembership(s, |s|, k);
    }
    forall k | k in Rekeyed(s) ensures k in Ids(s) {
      EntriesKeyedById(s);
      var w :| 0 <= w < |s| && Rekeyed(s)[k] == s[w] && KeyOf(s[w]) == k;
    }
    forall i | 0 <= i < |s| ensures IntKey(i) !in Rekeyed(s) {
      if IntKey(i) in Rekeyed(s) {
        EntriesKeyedById(s);
        var w :| 0 <= w < |s| && Rekeyed(s)[IntKey(i)] == s[w] && KeyOf(s[w]) == IntKey(i);
        assert Unset(KeyOf(s[w]), 0, |s|);
      }
    }
  }

  /**
   Mutation during iteration: an element stored at a position that the loop
   has yet to visit stays there until that position is unset, which removes
   it (at once, when the position is the element's own); it comes back only
   if a later element has the same key.
   */
  lemma PendingPositionUnset(s: seq<Element>, j: nat, i: nat)
    requires j <= i < |s| && KeyOf(s[j]) == IntKey(i)
    ensures j < i ==> IntKey(i) in TableAfter(s, j + 1) && TableAfter(s, j + 1)[IntKey(i)] == s[j]
    ensures IntKey(i) !in TableAfter(s, i + 1)
    ensures (forall t :: i < t < |s| ==> KeyOf(s[t]) != IntKey(i)) ==> IntKey(i) !in Rekeyed(s)
  {
    TableAfterMembership(s, j + 1, IntKey(i));
    assert LastWrite(s, j + 1, IntKey(i)) == Some(j);
    TableAfterMembership(s, i + 1, IntKey(i));
    RekeyedMembership(s, IntKey(i));
  }

  // ---------------------------------------------------------------------
  // Re-keying into a fresh table

  /** The first `n` elements stored by key into a new, initially empty table. */
  function RekeyPrefix(s: seq<Element>, n: nat): (m: map<Key, Element>)
    requires n <= |s|
    ensures m.Keys == IdsUpTo(s, n)
    ensures forall k :: k in m ==> LastWrite(s, n, k).Some? && m[k] == s[LastWrite(s, n, k).value]
    decreases n
  {
    if n == 0 then map[]
    else RekeyPrefix(s, n - 1)[KeyOf(s[n - 1]) := s[n - 1]]
  }

  /**
   Re-keying that builds a new table instead of rewriting the list it
   iterates over: every id keeps its last element.
   */
  function RekeyById(s: seq<Element>): (m: map<Key, Element>)
    ensures m.Keys == Ids(s)
    ensures forall k :: k in m ==> KeyOf(m[k]) == k
  {
    RekeyPrefix(s, |s|)
  }

  /** When no id is one of the positions, the in-place loop and the fresh table agree. */
  lemma InPlaceAgreesWithFresh(s: seq<Element>)
    requires NoPositionalIds(s)
    ensures Rekeyed(s) == RekeyById(s)
  {
    var inPlace, byId := Rekeyed(s), RekeyById(s);
    CleanRekeying(s);
    forall k | k in inPlace ensures inPlace[k] == byId[k] {
      TableAfterMembership(s, |s|, k);
    }
    SameEntries(inPlace, byId);
  }

  lemma SameEntries(a: map<Key, Element>, b: map<Key, Element>)
    requires a.Keys == b.Keys
    requires forall k :: k in a ==> a[k] == b[k]
    ensures a == b
  {
  }

  /**
   A single element whose id is "0" is lost by the in-place loop: it is
   stored at key 0 and then removed by `unset( $elements[ 0 ] )`. The fresh
   table keeps it.
   */
  lemma SelfIndexedIdDropped()
    ensures var s := [Element(Str("0"), map[], [])];
            Rekeyed(s) == map[] && RekeyById(s) == map[IntKey(0) := s[0]]
  {
    var s := [Element(Str("0"), map[], [])];
    assert DigitsValue("0") == 0 by { assert "0"[..0] == []; }
    assert KeyOf(s[0]) == IntKey(0);
    RekeyedMembership(s, IntKey(0));
    forall k ensures k !in Rekeyed(s) {
      RekeyedMembership(s, k);
    }
  }

  // ---------------------------------------------------------------------
  // Worked examples

  /** A section holding a widget: only the section is keyed; the widget stays inside it. */
  lemma SectionWithWidget()
    ensures var widget := Element(Str("b"), map["elType" := Str("widget")], []);
            var section := Element(Str("a"), map["elType" := Str("section")], [widget]);
            Rekeyed([section]) == map[StrKey("a") := section]
  {
    var widget := Element(Str("b"), map["elType" := Str("widget")], []);
    var section := Element(Str("a"), map["elType" := Str("section")], [widget]);
    var s := [section];
    assert !IsDigit("a"[0]);
    assert KeyOf(section) == StrKey("a");
    CleanRekeying(s);
    assert Ids(s) == {StrKey("a")};
    TableAfterMembership(s, 1, StrKey("a"));
  }

  /**
   An id that is a later position: the element with id "1" is stored at key
   1 and then removed when position 1 is unset, so only "x" remains.
   */
  lemma IdCollidesWithLaterPosition()
    ensures var first := Element(Str("1"), map[], []);
            var second := Element(Str("x"), map[], []);
            Rekeyed([first, second]) == map[StrKey("x") := second]
  {
    var first := Element(Str("1"), map[], []);
    var second := Element(Str("x"), map[], []);
    var s := [first, second];
    assert DigitsValue("1") == 1 by { assert "1"[..0] == []; }
    assert KeyOf(first) == IntKey(1);
    assert !IsDigit("x"[0]);
    assert KeyOf(second) == StrKey("x");
    TwoElementCollision(s);
  }

  lemma TwoElementCollision(s: seq<Element>)
    requires |s| == 2 && KeyOf(s[0]) == IntKey(1) && KeyOf(s[1]).StrKey?
    ensures Rekeyed(s) == map[KeyOf(s[1]) := s[1]]
  {
    var r := Rekeyed(s);
    PendingPositionUnset(s, 0, 1);
    TableAfterMembership(s, 2, KeyOf(s[1]));
    assert LastWrite(s, 2, KeyOf(s[1])) == Some(1);
    ResultKeysAreIds(s);
    forall k | k in r ensures k == KeyOf(s[1]) {
      var j :| 0 <= j < |s| && KeyOf(s[j]) == k;
    }
    SameEntries(r, map[KeyOf(s[1]) := s[1]]);
  }

  /**
   Two elements with the same id "1": the second store lands on key 1 again,
   and unsetting position 1 then removes it, so nothing is listed.
   */
  lemma RepeatedIdAtLastPosition(s: seq<Element>)
    requires |s| == 2 && KeyOf(s[0]) == IntKey(1) && KeyOf(s[1]) == IntKey(1)
    ensures Rekeyed(s) == map[]
  {
    forall k ensures k !in Rekeyed(s) {
      RekeyedMembership(s, k);
    }
  }
}
