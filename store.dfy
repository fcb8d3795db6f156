/**
 * The realtime database as the server sees it: the purchase-order tree at
 * path `PORef` (group key, item key, field) and the single vendor link at
 * path `VendorLinks`. Only the writes the server performs are modelled:
 * replacing one group subtree, setting one item field, and setting the link.
 */
module Store {
  import opened Http
  import opened Grouping

  const DELIVERY_STATUS := "DeliveryStatus"

  /** The text at path `PORef/<g>/<k>/<f>`, if any. */
  function Lookup(t: Tree, g: string, k: string, f: string): Option<string>
  {
    if g in t && k in t[g] && f in t[g][k] then Some(t[g][k][f]) else None
  }

  /** The tree after `ref.child(g).set(grouped[g])` for every group `g` of `grouped`. */
  function SetGroups(t: Tree, grouped: Tree): Tree
  {
    t + grouped
  }

  /**
   * Setting the groups replaces exactly the subtrees of the produced groups,
   * wholesale, and leaves every other group as it was.
   */
  lemma SetGroupsFrame(t: Tree, grouped: Tree, g: string, k: string, f: string)
    ensures g in grouped ==> g in SetGroups(t, grouped) && SetGroups(t, grouped)[g] == grouped[g]
    ensures g !in grouped ==> Lookup(SetGroups(t, grouped), g, k, f) == Lookup(t, g, k, f)
    ensures SetGroups(t, grouped).Keys == t.Keys + grouped.Keys
  {
  }

  /**
   * The tree after `ref.child(g).child(k).child('DeliveryStatus').set(status)`:
   * the path is created when it is missing.
   */
  function WithStatus(t: Tree, g: string, k: string, status: string): (r: Tree)
    ensures Lookup(r, g, k, DELIVERY_STATUS) == Some(status)
    ensures forall g', k', f :: (g', k', f) != (g, k, DELIVERY_STATUS) ==>
      Lookup(r, g', k', f) == Lookup(t, g', k', f)
    ensures r.Keys == t.Keys + {g}
    ensures forall g' :: g' in t && g' != g ==> r[g'] == t[g']
    ensures r[g].Keys == (if g in t then t[g].Keys else {}) + {k}
  {
    var group := if g in t then t[g] else map[];
    var item := if k in group then group[k] else map[];
    t[g := group[k := item[DELIVERY_STATUS := status]]]
  }

  /** Setting the same produced groups a second time changes nothing. */
  lemma SetGroupsIdempotent(t: Tree, grouped: Tree)
    ensures SetGroups(SetGroups(t, grouped), grouped) == SetGroups(t, grouped)
  {
  }

  /**
   * A status update addressed with the same "PO Ref" string that an insert
   * filed lands on the inserted item: the item keeps its other 17 fields and
   * gains the new status.
   */
  lemma {:induction false} UpdateAfterInsert(t: Tree, rs: seq<Record>, i: nat, status: string)
    requires AllDated(rs)
    requires i < |rs| && Included(rs[i])
    requires forall j :: i < j < |rs| && Included(rs[j]) ==> Slot(rs[j]) != Slot(rs[i])
    ensures var poRef := rs[i][PO_REF];
      var after := WithStatus(SetGroups(t, Grouped(rs)), GroupKey(poRef), ItemKey(poRef), status);
      Stored(after, GroupKey(poRef), ItemKey(poRef), Normalize(rs[i]).value[DELIVERY_STATUS := status])
  {
    GroupedLastWins(rs, i);
  }

  /** The Firebase database: the `PORef` tree and the `VendorLinks` value. */
  class Database {
    var poRef: Tree
    var vendorLinks: Option<string>

    constructor (poRef: Tree, vendorLinks: Option<string>)
      ensures this.poRef == poRef && this.vendorLinks == vendorLinks
    {
      this.poRef := poRef;
      this.vendorLinks := vendorLinks;
    }

    /** `db.ref('PORef').child(g).set(group)`: the whole subtree of `g` is replaced. */
    method SetGroup(g: string, group: Group)
      modifies this
      ensures poRef == old(poRef)[g := group]
      ensures vendorLinks == old(vendorLinks)
    {
      poRef := poRef[g := group];
    }

    /** `db.ref('PORef').child(g).child(k).child('DeliveryStatus').set(status)`. */
    method SetDeliveryStatus(g: string, k: string, status: string)
      modifies this
      ensures poRef == WithStatus(old(poRef), g, k, status)
      ensures vendorLinks == old(vendorLinks)
    {
      poRef := WithStatus(poRef, g, k, status);
    }

    /** `db.ref('VendorLinks').set(link)`. */
    method SetVendorLink(link: string)
      modifies this
      ensures vendorLinks == Some(link)
      ensures poRef == old(poRef)
    {
      vendorLinks := Some(link);
    }
  }
}
