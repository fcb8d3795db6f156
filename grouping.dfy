/**
 * The record normaliser and grouper of `/api/insertData`: each extracted
 * record whose "PO Ref" has a non-empty first component (split on " / ")
 * becomes a fixed 18-field item, filed under that component (the group key)
 * and under the "PO Ref" with its first '/' replaced by '-' (the item key).
 * The concatenated "Due DatePromised Date" cell is cut into two dates by
 * position. A later record for the same group and item key replaces an
 * earlier one.
 */
module Grouping {
  import opened Http
  import opened Strings

  const PO_REF := "PO Ref"
  const DATE_FIELD := "Due DatePromised Date"
  const DELIMITER := " / "

  /** The 16 item fields copied from the record, with '' when the record lacks them. */
  const PASS_THROUGH: seq<string> := [
    "PO Ref", "Drawing", "Item", "Item Rev", "Buyer", "Qty Ordered",
    "Material Supplier", "Material Available", "Notes", "MaterialRequired",
    "Current_cost", "MaterialScrap", "CostLog", "CurrentCost",
    "DrawingFileURL", "DeliveryStatus"]

  /** The two item fields cut out of DATE_FIELD. */
  const DUE_DATE := "Due Date"
  const PROMISED_DATE := "Promised Date"

  /** The 18 fields of a normalised item, in the order the object literal lists them. */
  const ITEM_FIELDS: seq<string> := PASS_THROUGH[..6] + [DUE_DATE, PROMISED_DATE] + PASS_THROUGH[6..]

  /** A normalised item: field name to text. */
  type Item = map<string, string>
  /** The items of one purchase order, by item key. */
  type Group = map<string, Item>
  /** Purchase orders by group key: the shape stored under `PORef`. */
  type Tree = map<string, Group>

  /** `poRef.split(' / ')[0]`. */
  function GroupKey(poRef: string): string
  {
    FirstComponent(poRef, DELIMITER)
  }

  /** `poRef.replace('/', '-')`. */
  function ItemKey(poRef: string): string
  {
    ReplaceFirst(poRef, '/', '-')
  }

  /**
   * The group key is the text before the first " / ", or the whole string
   * when there is none: no occurrence of the delimiter starts inside it, and
   * it never contains the delimiter itself.
   */
  lemma {:induction false} GroupKeyShape(poRef: string)
    ensures !Contains(poRef, DELIMITER) ==> GroupKey(poRef) == poRef
    ensures Contains(poRef, DELIMITER) ==>
      exists rest :: poRef == GroupKey(poRef) + DELIMITER + rest
    ensures !Contains(GroupKey(poRef), DELIMITER)
    ensures forall j: nat :: j < |GroupKey(poRef)| ==> !OccursAt(poRef, DELIMITER, j)
  {
    var g := GroupKey(poRef);
    FirstComponentSpec(poRef, DELIMITER);
    ContainsIff(poRef, DELIMITER);
    ContainsIff(g, DELIMITER);
    if Contains(poRef, DELIMITER) {
      assert g != poRef;
      var rest := poRef[|g| + |DELIMITER|..];
      assert poRef == g + DELIMITER + rest;
    }
    forall j: nat
      ensures OccursAt(g, DELIMITER, j) ==> OccursAt(poRef, DELIMITER, j)
    {
      PrefixOccurs(poRef, g, DELIMITER, j);
    }
  }

  /** An occurrence inside a prefix is an occurrence in the whole string. */
  lemma {:induction false} PrefixOccurs(s: string, p: string, pat: string, j: nat)
    requires |p| <= |s| && p == s[..|p|]
    ensures OccursAt(p, pat, j) ==> OccursAt(s, pat, j)
  {
  }

  /** The group key is empty exactly when the "PO Ref" is empty or starts with " / ". */
  lemma {:induction false} GroupKeyEmpty(poRef: string)
    ensures GroupKey(poRef) == "" <==> poRef == "" || OccursAt(poRef, DELIMITER, 0)
  {
  }

  /**
   * The item key keeps the length and every character of the "PO Ref" except
   * the first '/', which becomes '-'; without a '/' it is the "PO Ref" itself.
   */
  lemma {:induction false} ItemKeyShape(poRef: string)
    ensures |ItemKey(poRef)| == |poRef|
    ensures '/' !in poRef ==> ItemKey(poRef) == poRef
    ensures forall i :: 0 <= i < |poRef| ==>
      ItemKey(poRef)[i] == if i == IndexOf(poRef, '/') then '-' else poRef[i]
  {
    IndexOfSpec(poRef, '/');
    ReplaceFirstSpec(poRef, '/', '-');
  }

  /** The two dates cut out of the concatenated date cell. */
  datatype Dates = Dates(due: string, promised: string)

  /**
   * The positional split of the date cell with JavaScript `substring`, whose
   * end index is clamped to the length of the text.
   */
  function DateSplit(s: string): (d: Dates)
    ensures |s| >= 16 ==> d.due == s[..10] && d.promised == s[10..Min(20, |s|)]
    ensures 8 <= |s| < 16 ==> d.due == s[..8] && d.promised == ""
    ensures |s| < 8 ==> d.due == "" && d.promised == ""
    ensures |d.due| <= 10 && |d.promised| <= 10
  {
    if |s| >= 16 then Dates(Substring(s, 0, 10), Substring(s, 10, 20))
    else if |s| >= 8 then Dates(Substring(s, 0, 8), "")
    else Dates("", "")
  }

  /** `itemData[f] || ''` for a record whose values are all strings. */
  function Field(rec: Record, f: string): string
  {
    if f in rec then rec[f] else ""
  }

  /**
   * The object literal `itemDataToInsert`: the two dates from the split and
   * every other field copied with its '' default.
   */
  function ItemOf(rec: Record, dates: Dates): Item
  {
    map f | f in ITEM_FIELDS ::
      if f == DUE_DATE then dates.due
      else if f == PROMISED_DATE then dates.promised
      else Field(rec, f)
  }

  /**
   * The item a record normalises to, or None when the record lacks the date
   * cell (reading its `length` throws).
   */
  function Normalize(rec: Record): (r: Option<Item>)
    ensures r.None? <==> DATE_FIELD !in rec
  {
    if DATE_FIELD !in rec then None else Some(ItemOf(rec, DateSplit(rec[DATE_FIELD])))
  }

  /** The two split dates are not among the copied fields. */
  lemma DatesNotCopied()
    ensures DUE_DATE !in PASS_THROUGH && PROMISED_DATE !in PASS_THROUGH
  {
  }

  /** The two dates of a normalised item come from the split of the date cell. */
  lemma NormalizeDates(rec: Record)
    requires DATE_FIELD in rec
    ensures Normalize(rec).Some?
    ensures Normalize(rec).value[DUE_DATE] == DateSplit(rec[DATE_FIELD]).due
    ensures Normalize(rec).value[PROMISED_DATE] == DateSplit(rec[DATE_FIELD]).promised
  {
  }

  /**
   * A normalised item has exactly the 18 item fields: every copied field
   * holds the record's text or '', and the two dates come from the split.
   */
  lemma {:induction false} NormalizeSpec(rec: Record)
    requires DATE_FIELD in rec
    ensures Normalize(rec).Some?
    ensures forall f :: f in Normalize(rec).value <==> f in ITEM_FIELDS
    ensures forall f :: f in PASS_THROUGH ==> Normalize(rec).value[f] == Field(rec, f)
    ensures Normalize(rec).value[DUE_DATE] == DateSplit(rec[DATE_FIELD]).due
    ensures Normalize(rec).value[PROMISED_DATE] == DateSplit(rec[DATE_FIELD]).promised
  {
    DatesNotCopied();
    NormalizeDates(rec);
    assert forall f :: f in PASS_THROUGH ==> f in ITEM_FIELDS;
  }

  /** The record takes part in grouping: it has a "PO Ref" whose group key is not empty. */
  predicate Included(rec: Record)
  {
    PO_REF in rec && GroupKey(rec[PO_REF]) != ""
  }

  /** A record is skipped exactly when its "PO Ref" is missing, empty, or starts with " / ". */
  lemma {:induction false} SkipRule(rec: Record)
    ensures !Included(rec) <==>
      PO_REF !in rec || rec[PO_REF] == "" || OccursAt(rec[PO_REF], DELIMITER, 0)
  {
  }

  /** Where an included record is filed: its group key and its item key. */
  function Slot(rec: Record): (string, string)
    requires PO_REF in rec
  {
    (GroupKey(rec[PO_REF]), ItemKey(rec[PO_REF]))
  }

  /** Every included record has the date cell, so grouping does not throw. */
  predicate AllDated(rs: seq<Record>)
  {
    forall i :: 0 <= i < |rs| && Included(rs[i]) ==> DATE_FIELD in rs[i]
  }

  /** `groupedData[g][k] = item`, creating the group when it is missing. */
  function Put(t: Tree, g: string, k: string, item: Item): (r: Tree)
    ensures r.Keys == t.Keys + {g}
    ensures k in r[g] && r[g][k] == item
    ensures forall k' :: k' != k ==> (k' in r[g] <==> g in t && k' in t[g])
    ensures forall k' :: k' != k && k' in r[g] ==> r[g][k'] == t[g][k']
    ensures forall g' :: g' != g && g' in t ==> r[g'] == t[g']
  {
    t[g := (if g in t then t[g] else map[])[k := item]]
  }

  /** One pass of the `forEach` body: an included record is filed at its slot, any other is skipped. */
  function File(t: Tree, rec: Record): (r: Tree)
    requires Included(rec) ==> DATE_FIELD in rec
    ensures forall g :: g in r ==> r[g] != map[] || (g in t && r[g] == t[g])
  {
    if Included(rec) then Put(t, GroupKey(rec[PO_REF]), ItemKey(rec[PO_REF]), Normalize(rec).value)
    else t
  }

  /** The `groupedData` object after the `forEach` over `rs`. */
  function Grouped(rs: seq<Record>): (t: Tree)
    requires AllDated(rs)
    ensures forall g :: g in t ==> t[g] != map[]
    decreases |rs|
  {
    if rs == [] then map[]
    else
      var init := rs[..|rs| - 1];
      assert forall i :: 0 <= i < |init| ==> init[i] == rs[i];
      File(Grouped(init), rs[|rs| - 1])
  }

  lemma {:induction false} AllDatedPrefix(rs: seq<Record>, n: nat)
    requires AllDated(rs) && n <= |rs|
    ensures AllDated(rs[..n])
  {
  }

  /** Grouping one more record: a record that is not included leaves the tree as it was. */
  lemma {:induction false} GroupedLast(rs: seq<Record>)
    requires rs != [] && AllDated(rs)
    ensures AllDated(rs[..|rs| - 1])
    ensures Grouped(rs) == File(Grouped(rs[..|rs| - 1]), rs[|rs| - 1])
  {
  }

  /** A prefix of dated records, extended by a record that is dated if included, is dated. */
  lemma {:induction false} AllDatedSnoc(rs: seq<Record>, i: nat)
    requires i < |rs| && AllDated(rs[..i])
    requires Included(rs[i]) ==> DATE_FIELD in rs[i]
    ensures AllDated(rs[..i + 1])
  {
  }

  /** An included record without the date cell makes the whole sequence undated. */
  lemma Undated(rs: seq<Record>, i: nat)
    requires i < |rs| && Included(rs[i]) && DATE_FIELD !in rs[i]
    ensures !AllDated(rs)
  {
  }

  /** Grouping a prefix one record further: the fold takes one `File` step. */
  lemma {:induction false} GroupedStep(rs: seq<Record>, i: nat)
    requires i < |rs| && AllDated(rs[..i])
    requires Included(rs[i]) ==> DATE_FIELD in rs[i]
    ensures AllDated(rs[..i + 1])
    ensures Grouped(rs[..i + 1]) == File(Grouped(rs[..i]), rs[i])
  {
    AllDatedSnoc(rs, i);
    GroupedLast(rs[..i + 1]);
    assert rs[..i + 1][..i] == rs[..i];
    assert rs[..i + 1][i] == rs[i];
  }

  /** A record stored at one slot stays stored when another slot is written. */
  lemma PutKeeps(t: Tree, g: string, k: string, item: Item, g': string, k': string, item': Item)
    requires Stored(t, g', k', item') && (g, k) != (g', k')
    ensures Stored(Put(t, g, k, item), g', k', item')
  {
  }

  /** The tree holds `item` under group `g` and item key `k`. */
  predicate Stored(t: Tree, g: string, k: string, item: Item)
  {
    g in t && k in t[g] && t[g][k] == item
  }

  /** The last included record for a slot is the item stored there: last write wins. */
  lemma {:induction false} GroupedLastWins(rs: seq<Record>, i: nat)
    requires AllDated(rs)
    requires i < |rs| && Included(rs[i])
    requires forall j :: i < j < |rs| && Included(rs[j]) ==> Slot(rs[j]) != Slot(rs[i])
    ensures Stored(Grouped(rs), Slot(rs[i]).0, Slot(rs[i]).1, Normalize(rs[i]).value)
    decreases |rs|
  {
    var n := |rs| - 1;
    GroupedLast(rs);
    if i < n {
      var init := rs[..n];
      assert init[i] == rs[i];
      assert forall j :: i < j < |init| ==> init[j] == rs[j];
      GroupedLastWins(init, i);
      var rec := rs[n];
      if Included(rec) {
        PutKeeps(Grouped(init), GroupKey(rec[PO_REF]), ItemKey(rec[PO_REF]), Normalize(rec).value,
          Slot(rs[i]).0, Slot(rs[i]).1, Normalize(rs[i]).value);
      }
    }
  }

  /** Every stored item comes from an included record filed at that slot. */
  lemma {:induction false} GroupedOrigin(rs: seq<Record>, g: string, k: string)
    requires AllDated(rs)
    requires g in Grouped(rs) && k in Grouped(rs)[g]
    ensures exists i :: 0 <= i < |rs| && Included(rs[i]) && Slot(rs[i]) == (g, k) &&
                        Stored(Grouped(rs), g, k, Normalize(rs[i]).value)
    decreases |rs|
  {
    var n := |rs| - 1;
    var rec := rs[n];
    if !(Included(rec) && Slot(rec) == (g, k)) {
      AllDatedPrefix(rs, n);
      GroupedOrigin(rs[..n], g, k);
      var i :| 0 <= i < n && Included(rs[..n][i]) && Slot(rs[..n][i]) == (g, k) &&
        Stored(Grouped(rs[..n]), g, k, Normalize(rs[..n][i]).value);
      assert rs[..n][i] == rs[i];
    }
  }

  /** Every included record has its slot in the result. */
  lemma {:induction false} GroupedCovers(rs: seq<Record>, i: nat)
    requires AllDated(rs)
    requires i < |rs| && Included(rs[i])
    ensures Slot(rs[i]).0 in Grouped(rs) && Slot(rs[i]).1 in Grouped(rs)[Slot(rs[i]).0]
    decreases |rs|
  {
    var n := |rs| - 1;
    if i < n {
      AllDatedPrefix(rs, n);
      GroupedCovers(rs[..n], i);
    }
  }

  /** The index of the last included record filed at (g, k), or -1 when there is none. */
  function LastFor(rs: seq<Record>, g: string, k: string): (i: int)
    ensures -1 <= i < |rs|
    decreases |rs|
  {
    if rs == [] then -1
    else if Included(rs[|rs| - 1]) && Slot(rs[|rs| - 1]) == (g, k) then |rs| - 1
    else LastFor(rs[..|rs| - 1], g, k)
  }

  /** LastFor names a record filed at (g, k) with none after it, and -1 means no record is filed there. */
  lemma {:induction false} LastForSpec(rs: seq<Record>, g: string, k: string)
    ensures var i := LastFor(rs, g, k);
      && (i == -1 ==> forall j :: 0 <= j < |rs| && Included(rs[j]) ==> Slot(rs[j]) != (g, k))
      && (i != -1 ==> Included(rs[i]) && Slot(rs[i]) == (g, k))
      && (forall j :: i < j < |rs| && Included(rs[j]) ==> Slot(rs[j]) != (g, k))
    decreases |rs|
  {
    if rs != [] {
      var n := |rs| - 1;
      if !(Included(rs[n]) && Slot(rs[n]) == (g, k)) {
        LastForSpec(rs[..n], g, k);
        assert forall j :: 0 <= j < n ==> rs[..n][j] == rs[j];
      }
    }
  }

  /**
   * What the grouped tree holds at (g, k): nothing when no included record is
   * filed there, otherwise the item of the last such record.
   */
  lemma {:induction false} GroupedAt(rs: seq<Record>, g: string, k: string)
    requires AllDated(rs)
    ensures LastFor(rs, g, k) == -1 ==> !(g in Grouped(rs) && k in Grouped(rs)[g])
    ensures var i := LastFor(rs, g, k);
      i != -1 ==> DATE_FIELD in rs[i] && Stored(Grouped(rs), g, k, Normalize(rs[i]).value)
  {
    LastForSpec(rs, g, k);
    var i := LastFor(rs, g, k);
    if i == -1 {
      if g in Grouped(rs) && k in Grouped(rs)[g] {
        GroupedOrigin(rs, g, k);
      }
    } else {
      GroupedLastWins(rs, i);
    }
  }

  /** Repeating the record list moves the last record for every slot into the second copy. */
  lemma {:induction false} LastForTwice(rs: seq<Record>, g: string, k: string)
    ensures LastFor(rs + rs, g, k) ==
      if LastFor(rs, g, k) == -1 then -1 else |rs| + LastFor(rs, g, k)
  {
    var n, l, m := |rs|, LastFor(rs, g, k), LastFor(rs + rs, g, k);
    var twice := rs + rs;
    assert forall j :: 0 <= j < 2 * n ==> twice[j] == rs[if j < n then j else j - n];
    LastForSpec(rs, g, k);
    LastForSpec(twice, g, k);
    if l != -1 {
      assert twice[n + l] == rs[l];
    }
  }

  /** Grouping the same records twice over gives the same tree as grouping them once. */
  lemma {:induction false} GroupedTwice(rs: seq<Record>)
    requires AllDated(rs)
    ensures AllDated(rs + rs)
    ensures Grouped(rs + rs) == Grouped(rs)
  {
    var n, twice := |rs|, rs + rs;
    assert forall j :: 0 <= j < 2 * n ==> twice[j] == rs[if j < n then j else j - n];
    var once, again := Grouped(rs), Grouped(twice);
    forall g, k
      ensures (g in again && k in again[g]) <==> (g in once && k in once[g])
      ensures g in again && k in again[g] ==> again[g][k] == once[g][k]
    {
      LastForTwice(rs, g, k);
      GroupedAt(rs, g, k);
      GroupedAt(twice, g, k);
      var l := LastFor(rs, g, k);
      if l != -1 {
        assert twice[n + l] == rs[l];
      }
    }
    forall g | g in again
      ensures g in once
    {
      var k :| k in again[g];
    }
    forall g | g in once
      ensures g in again && again[g] == once[g]
    {
      var k :| k in once[g];
      assert again[g].Keys == once[g].Keys;
    }
    assert again.Keys == once.Keys;
  }

  /** The worked "PO Ref" "1001 / A" has group key "1001". */
  lemma ScenarioGroupKey()
    ensures GroupKey("1001 / A") == "1001"
  {
    var poRef := "1001 / A";
    assert poRef[4..7] == DELIMITER;
    assert Find(poRef, DELIMITER, 4) == 4;
    assert poRef[3..6][0] == '1' && poRef[2..5][0] == '0' && poRef[1..4][0] == '0' && poRef[0..3][0] == '1';
    assert Find(poRef, DELIMITER, 0) == 4;
  }

  /** The worked "PO Ref" "1001 / A" has item key "1001 - A": the spaces around the '/' stay. */
  lemma ScenarioItemKey()
    ensures ItemKey("1001 / A") == "1001 - A"
  {
    var poRef := "1001 / A";
    assert poRef[1..][1..][1..][1..][1..] == "/ A";
    assert ReplaceFirst(poRef[1..][1..][1..][1..][1..], '/', '-') == "- A";
  }

  /** The worked 20-character date cell splits into its two halves. */
  lemma ScenarioDates()
    ensures DateSplit("2024-01-012024-01-15") == Dates("2024-01-01", "2024-01-15")
  {
  }

  /**
   * A worked record: "1001 / A" is filed under group "1001" and item key
   * "1001 - A", and a 20-character date cell splits into its two halves.
   */
  lemma Scenario(rec: Record)
    requires rec == map[PO_REF := "1001 / A", "Item" := "X1", DATE_FIELD := "2024-01-012024-01-15"]
    ensures Included(rec) && Slot(rec) == ("1001", "1001 - A")
    ensures Normalize(rec).Some?
    ensures Normalize(rec).value[DUE_DATE] == "2024-01-01"
    ensures Normalize(rec).value[PROMISED_DATE] == "2024-01-15"
  {
    ScenarioGroupKey();
    ScenarioItemKey();
    ScenarioDates();
    NormalizeDates(rec);
    assert rec[PO_REF] == "1001 / A";
    assert rec[DATE_FIELD] == "2024-01-012024-01-15";
  }

  /**
   * The `forEach` of `/api/insertData` over the extracted records: None when
   * an included record lacks the date cell (the TypeError that aborts the
   * request), otherwise the grouped tree.
   */
  method GroupRecords(tableData: seq<Record>) returns (grouped: Option<Tree>)
    ensures grouped.None? <==> !AllDated(tableData)
    ensures grouped.Some? ==> AllDated(tableData) && grouped.value == Grouped(tableData)
  {
    var groupedData: Tree := map[];
    var i := 0;
    while i < |tableData|
      invariant i <= |tableData|
      invariant AllDated(tableData[..i])
      invariant groupedData == Grouped(tableData[..i])
    {
      var itemData := tableData[i];
      ghost var before := groupedData;
      if PO_REF in itemData {
        var poRef := GroupKey(itemData[PO_REF]);
        if poRef != "" {
          var itemKey := ItemKey(itemData[PO_REF]);
          if DATE_FIELD !in itemData {
            Undated(tableData, i);
            return None;
          }
          var dates := DateSplit(itemData[DATE_FIELD]);
          var itemDataToInsert := ItemOf(itemData, dates);
          var group := if poRef in groupedData then groupedData[poRef] else map[];
          groupedData := groupedData[poRef := group[itemKey := itemDataToInsert]];
          assert groupedData == Put(before, poRef, itemKey, Normalize(itemData).value);
        }
      }
      assert groupedData == File(before, itemData);
      GroupedStep(tableData, i);
      i := i + 1;
    }
    assert tableData[..i] == tableData;
    return Some(groupedData);
  }
}
