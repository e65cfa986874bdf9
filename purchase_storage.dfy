/** Persistence of the purchase list in the browser's local storage, under one
    key. Every read failure yields the empty list and every write failure is
    swallowed, so in the modelled cases (the slot holds a serialised purchase
    list, or text that is empty or does not parse) none of these operations
    throws. */
module PurchaseStorage {

  datatype TriggerType =
    | Boredom | Stress | SocialMedia | Hunger | LateNightScrolling | PeerPressure

  datatype Purchase = Purchase(
    id: string,
    itemName: string,
    price: real,
    date: string,
    trigger: TriggerType,
    createdAt: int)

  const StorageKey: string := "impulse-purchases"

  /** What local storage holds under `StorageKey`: nothing, text that is empty or
      does not parse as JSON, or the JSON text of a purchase list. */
  datatype Entry = Missing | EmptyOrMalformed | Serialized(purchases: seq<Purchase>)

  /** `purchases.filter(p => p.id !== id)`. */
  function RemoveId(purchases: seq<Purchase>, id: string): (kept: seq<Purchase>)
    ensures |kept| <= |purchases|
    ensures forall p :: p in kept <==> p in purchases && p.id != id
  {
    if purchases == [] then []
    else if purchases[0].id != id then [purchases[0]] + RemoveId(purchases[1..], id)
    else RemoveId(purchases[1..], id)
  }

  /** The browser's storage for this application. The three constants are the
      environment: whether a window exists, and whether `getItem` and `setItem`
      succeed (they throw when storage is disabled or its quota is full). */
  class PurchaseStore {
    const inBrowser: bool
    const readable: bool
    const writable: bool
    var entry: Entry

    constructor(inBrowser: bool, readable: bool, writable: bool, entry: Entry)
      ensures this.inBrowser == inBrowser && this.readable == readable
      ensures this.writable == writable && this.entry == entry
    {
      this.inBrowser := inBrowser;
      this.readable := readable;
      this.writable := writable;
      this.entry := entry;
    }

    /** The list a read yields in the current state. */
    function Stored(): (purchases: seq<Purchase>)
      reads this
      ensures !inBrowser || !readable || !entry.Serialized? ==> purchases == []
      ensures inBrowser && readable && entry.Serialized? ==> purchases == entry.purchases
    {
      if !inBrowser || !readable then []
      else match entry
        case Serialized(purchases) => purchases
        case _ => []
    }

    /** Whether `setItem` takes effect. */
    predicate Persists()
    {
      inBrowser && writable
    }

    /** `getPurchases`: the stored list; the empty list outside a browser, when
        nothing is stored, when the text is empty or malformed, and when reading
        throws. */
    method GetPurchases() returns (purchases: seq<Purchase>)
      ensures purchases == Stored()
      ensures !inBrowser || !readable || !entry.Serialized? ==> purchases == []
      ensures inBrowser && readable && entry.Serialized? ==> purchases == entry.purchases
    {
      if !inBrowser {
        return [];
      }
      if !readable {
        // getItem threw; the error is logged.
        return [];
      }
      match entry
      case Serialized(list) => purchases := list;
      case _ => purchases := [];
    }

    /** `savePurchases`: replaces the stored entry when writing succeeds and leaves
        it unchanged otherwise. */
    method SavePurchases(purchases: seq<Purchase>)
      modifies this
      ensures entry == if Persists() then Serialized(purchases) else old(entry)
      ensures Persists() && readable ==> Stored() == purchases
    {
      if !inBrowser {
        return;
      }
      if writable {
        entry := Serialized(purchases);
      }
    }

    /** `addPurchase`: the new purchase first, then the stored list. */
    method AddPurchase(purchase: Purchase) returns (updated: seq<Purchase>)
      modifies this
      ensures updated == [purchase] + old(Stored())
      ensures |updated| == |old(Stored())| + 1
      ensures entry == if Persists() then Serialized(updated) else old(entry)
      ensures Persists() && readable ==> Stored() == updated
    {
      var purchases := GetPurchases();
      updated := [purchase] + purchases;
      SavePurchases(updated);
    }

    /** `deletePurchase`: the stored list without the purchases carrying `id`. */
    method DeletePurchase(id: string) returns (updated: seq<Purchase>)
      modifies this
      ensures updated == RemoveId(old(Stored()), id)
      ensures entry == if Persists() then Serialized(updated) else old(entry)
      ensures Persists() && readable ==> Stored() == updated
    {
      var purchases := GetPurchases();
      updated := RemoveId(purchases, id);
      SavePurchases(updated);
    }
  }

  /** Filtering keeps the relative order: it distributes over concatenation. */
  lemma {:induction false} RemoveIdConcat(a: seq<Purchase>, b: seq<Purchase>, id: string)
    ensures RemoveId(a + b, id) == RemoveId(a, id) + RemoveId(b, id)
    decreases |a|
  {
    if a == [] {
      assert a + b == b;
    } else {
      assert (a + b)[1..] == a[1..] + b;
      RemoveIdConcat(a[1..], b, id);
    }
  }

  /** A list without the id is left unchanged. */
  lemma {:induction false} RemoveAbsentId(purchases: seq<Purchase>, id: string)
    requires forall p :: p in purchases ==> p.id != id
    ensures RemoveId(purchases, id) == purchases
    decreases |purchases|
  {
    if purchases != [] {
      assert purchases[0] in purchases;
      assert forall p :: p in purchases[1..] ==> p in purchases;
      RemoveAbsentId(purchases[1..], id);
    }
  }

  /** Deleting twice is deleting once. */
  lemma RemoveIdIdempotent(purchases: seq<Purchase>, id: string)
    ensures RemoveId(RemoveId(purchases, id), id) == RemoveId(purchases, id)
  {
    RemoveAbsentId(RemoveId(purchases, id), id);
  }

  /** Adding a purchase whose id is new and then deleting that id gives back the
      list as it was. */
  lemma AddThenDelete(purchases: seq<Purchase>, purchase: Purchase)
    requires forall p :: p in purchases ==> p.id != purchase.id
    ensures RemoveId([purchase] + purchases, purchase.id) == purchases
  {
    assert ([purchase] + purchases)[1..] == purchases;
    RemoveAbsentId(purchases, purchase.id);
  }

  /** Deleting changes nothing exactly when no purchase carries the id. */
  lemma {:induction false} RemoveIdChanges(purchases: seq<Purchase>, id: string)
    ensures RemoveId(purchases, id) == purchases <==> forall p :: p in purchases ==> p.id != id
  {
    if forall p :: p in purchases ==> p.id != id {
      RemoveAbsentId(purchases, id);
    } else {
      var p :| p in purchases && p.id == id;
      assert p !in RemoveId(purchases, id);
    }
  }
}
