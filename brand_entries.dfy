/**
 * The rows of the bulk-import form: one brand entry per uploaded link file. The list
 * operations rebuild the whole list (`map`, `filter`, spread), so they are functions on
 * sequences. The invariant they keep is that the list is never empty and ids are unique.
 */
module BrandEntries {
  import opened Wrappers
  import opened BrandName

  /**
   * A file picked in the upload control: its name and what reading it as text gives,
   * `None` when the read fails.
   */
  datatype UploadedFile = UploadedFile(name: string, text: Option<string>)

  /** `{ id, file, brandName }`; `file` is `None` until a file is uploaded (`null`). */
  datatype BrandEntry = BrandEntry(id: int, file: Option<UploadedFile>, brandName: string)

  /** The list at mount time and after a cancel: one empty row with id 1. */
  const InitialEntries: seq<BrandEntry> := [BrandEntry(1, None, "")]

  predicate UniqueIds(items: seq<BrandEntry>) {
    forall i, j :: 0 <= i < j < |items| ==> items[i].id != items[j].id
  }

  /** The invariant of the entry list. */
  predicate WellFormed(items: seq<BrandEntry>) {
    |items| >= 1 && UniqueIds(items)
  }

  predicate HasId(items: seq<BrandEntry>, id: int) {
    exists i :: 0 <= i < |items| && items[i].id == id
  }

  /** `Math.max(...items.map(item => item.id))` for a non-empty list. */
  function MaxId(items: seq<BrandEntry>): (m: int)
    requires |items| >= 1
    ensures forall i :: 0 <= i < |items| ==> items[i].id <= m
    ensures HasId(items, m)
  {
    if |items| == 1 then items[0].id
    else
      var rest := MaxId(items[1..]);
      assert forall i :: 1 <= i < |items| ==> items[i] == items[1..][i - 1];
      if items[0].id >= rest then items[0].id else rest
  }

  /** `addBrandItem`: append an empty row whose id is the largest id plus one. */
  function AddItem(items: seq<BrandEntry>): (r: seq<BrandEntry>)
    requires |items| >= 1
    ensures |r| == |items| + 1 && r[..|items|] == items
    ensures r[|items|].file == None && r[|items|].brandName == ""
    ensures forall i :: 0 <= i < |items| ==> items[i].id < r[|items|].id
    ensures HasId(items, r[|items|].id - 1)
    ensures UniqueIds(items) ==> UniqueIds(r)
  {
    items + [BrandEntry(MaxId(items) + 1, None, "")]
  }

  /** `items.filter(item => item.id !== id)`. */
  function WithoutId(items: seq<BrandEntry>, id: int): (r: seq<BrandEntry>)
    ensures |r| <= |items|
    ensures forall e :: e in r <==> e in items && e.id != id
    ensures UniqueIds(items) ==> UniqueIds(r)
  {
    if items == [] then []
    else
      var rest := WithoutId(items[1..], id);
      assert forall e :: e in items <==> e == items[0] || e in items[1..];
      assert UniqueIds(items) ==> UniqueIds(items[1..]) && forall e :: e in rest ==> e.id != items[0].id by {
        if UniqueIds(items) {
          UniqueIdsTail(items);
          assert forall i :: 1 <= i < |items| ==> items[i].id != items[0].id;
        }
      }
      if items[0].id != id then [items[0]] + rest else rest
  }

  /** `removeBrandItem`: refused while only one row is left. */
  function RemoveItem(items: seq<BrandEntry>, id: int): (r: seq<BrandEntry>)
    ensures |items| <= 1 ==> r == items
    ensures |items| > 1 ==> forall e :: e in r <==> e in items && e.id != id
  {
    if |items| > 1 then WithoutId(items, id) else items
  }

  /** The two fields `updateBrandItem` is called with. */
  datatype Edit = SetFile(file: Option<UploadedFile>) | SetBrandName(name: string)

  function ApplyEdit(e: BrandEntry, edit: Edit): BrandEntry {
    match edit
    case SetFile(f) => e.(file := f)
    case SetBrandName(n) => e.(brandName := n)
  }

  /** `updateBrandItem(id, field, value)`: every row with the id gets the edit. */
  function UpdateItem(items: seq<BrandEntry>, id: int, edit: Edit): (r: seq<BrandEntry>)
    ensures |r| == |items|
    ensures forall i :: 0 <= i < |items| ==> r[i].id == items[i].id
    ensures forall i :: 0 <= i < |items| && items[i].id != id ==> r[i] == items[i]
    ensures forall i :: 0 <= i < |items| && items[i].id == id ==> r[i] == ApplyEdit(items[i], edit)
  {
    seq(|items|, i requires 0 <= i < |items| =>
      if items[i].id == id then ApplyEdit(items[i], edit) else items[i])
  }

  /** `handleFileUpload(id, file)`: the row gets the file and the brand name derived from its name. */
  function FileUpload(items: seq<BrandEntry>, id: int, file: UploadedFile): (r: seq<BrandEntry>)
    ensures |r| == |items|
    ensures forall i :: 0 <= i < |items| ==> r[i].id == items[i].id
    ensures forall i :: 0 <= i < |items| && items[i].id != id ==> r[i] == items[i]
    ensures forall i :: 0 <= i < |items| && items[i].id == id ==>
      r[i].file == Some(file) && r[i].brandName == BrandNameOf(file.name)
  {
    var brandName := BrandNameOf(file.name);
    seq(|items|, i requires 0 <= i < |items| =>
      if items[i].id == id then items[i].(file := Some(file), brandName := brandName) else items[i])
  }

  /** `validateForm`: stops at the first row without a file. */
  function Validate(items: seq<BrandEntry>): (ok: bool)
    ensures ok <==> forall i :: 0 <= i < |items| ==> items[i].file.Some?
  {
    if items == [] then true
    else if items[0].file.None? then false
    else
      assert forall i :: 1 <= i < |items| ==> items[i] == items[1..][i - 1];
      Validate(items[1..])
  }

  // Properties of the list operations

  lemma InitialWellFormed()
    ensures WellFormed(InitialEntries) && InitialEntries[0].id == 1
    ensures !Validate(InitialEntries)
  {
  }

  /** Appending keeps the invariant. */
  lemma AddKeepsWellFormed(items: seq<BrandEntry>)
    requires WellFormed(items)
    ensures WellFormed(AddItem(items))
  {
  }

  lemma UniqueIdsTail(items: seq<BrandEntry>)
    requires UniqueIds(items) && |items| > 0
    ensures UniqueIds(items[1..])
  {
    forall i, j | 0 <= i < j < |items[1..]| ensures items[1..][i].id != items[1..][j].id {
      assert items[1..][i] == items[i + 1] && items[1..][j] == items[j + 1];
    }
  }

  /** With unique ids, filtering out the id of row `k` removes exactly that row. */
  lemma {:induction false} WithoutIdAt(items: seq<BrandEntry>, k: int)
    requires UniqueIds(items) && 0 <= k < |items|
    ensures WithoutId(items, items[k].id) == items[..k] + items[k + 1..]
    decreases |items|
  {
    var id := items[k].id;
    var tail := items[1..];
    UniqueIdsTail(items);
    if k == 0 {
      assert forall i :: 0 <= i < |tail| ==> tail[i].id != id by {
        assert forall i :: 0 <= i < |tail| ==> tail[i] == items[i + 1];
      }
      WithoutAbsentId(tail, id);
      assert items[..0] + items[1..] == tail;
    } else {
      assert items[0].id != id;
      assert tail[k - 1] == items[k];
      WithoutIdAt(tail, k - 1);
      WithoutIdKeepsHead(items, id);
      SpliceTail(items, k);
    }
  }

  lemma WithoutIdKeepsHead(items: seq<BrandEntry>, id: int)
    requires |items| > 0 && items[0].id != id
    ensures WithoutId(items, id) == [items[0]] + WithoutId(items[1..], id)
  {
  }

  lemma SpliceTail(items: seq<BrandEntry>, k: int)
    requires 0 < k < |items|
    ensures [items[0]] + (items[1..][..k - 1] + items[1..][k..]) == items[..k] + items[k + 1..]
  {
    assert [items[0]] + items[1..][..k - 1] == items[..k];
    assert items[1..][k..] == items[k + 1..];
  }

  /** Filtering out an id that no row has changes nothing. */
  lemma {:induction false} WithoutAbsentId(items: seq<BrandEntry>, id: int)
    requires forall i :: 0 <= i < |items| ==> items[i].id != id
    ensures WithoutId(items, id) == items
    decreases |items|
  {
    if items != [] {
      WithoutAbsentId(items[1..], id);
      assert [items[0]] + items[1..] == items;
    }
  }

  /** Removing an existing row from a list of two or more drops that row and keeps the order of the rest. */
  lemma RemoveDropsOneRow(items: seq<BrandEntry>, k: int)
    requires UniqueIds(items) && 1 < |items| && 0 <= k < |items|
    ensures RemoveItem(items, items[k].id) == items[..k] + items[k + 1..]
  {
    WithoutIdAt(items, k);
  }

  /** Removing an id no row has is a no-op. */
  lemma RemoveAbsentIsNoOp(items: seq<BrandEntry>, id: int)
    requires !HasId(items, id)
    ensures RemoveItem(items, id) == items
  {
    if |items| > 1 {
      WithoutAbsentId(items, id);
    }
  }

  /** Removal keeps the invariant: the list never becomes empty and ids stay unique. */
  lemma RemoveKeepsWellFormed(items: seq<BrandEntry>, id: int)
    requires WellFormed(items)
    ensures WellFormed(RemoveItem(items, id))
    ensures |RemoveItem(items, id)| >= |items| - 1
  {
    if HasId(items, id) && |items| > 1 {
      var k :| 0 <= k < |items| && items[k].id == id;
      RemoveDropsOneRow(items, k);
    } else if |items| > 1 {
      RemoveAbsentIsNoOp(items, id);
    }
  }

  /** Without unique ids the filter can empty the list: two rows sharing an id both go. */
  lemma RemoveNeedsUniqueIds(e: BrandEntry)
    ensures RemoveItem([e, e], e.id) == []
  {
    assert [e, e][1..] == [e];
    assert WithoutId([e], e.id) == [];
  }

  /** With unique ids an update changes only the row with that id. */
  lemma UpdateChangesOneRow(items: seq<BrandEntry>, k: int, edit: Edit)
    requires UniqueIds(items) && 0 <= k < |items|
    ensures UpdateItem(items, items[k].id, edit) == items[k := ApplyEdit(items[k], edit)]
  {
  }

  /** Updates keep the invariant. */
  lemma UpdateKeepsWellFormed(items: seq<BrandEntry>, id: int, edit: Edit)
    requires WellFormed(items)
    ensures WellFormed(UpdateItem(items, id, edit))
  {
    var r := UpdateItem(items, id, edit);
    assert forall i, j :: 0 <= i < j < |r| ==> r[i].id == items[i].id && r[j].id == items[j].id;
  }

  /** An update naming no row is a no-op. */
  lemma UpdateAbsentIsNoOp(items: seq<BrandEntry>, id: int, edit: Edit)
    requires !HasId(items, id)
    ensures UpdateItem(items, id, edit) == items
  {
  }

  /** With unique ids an upload sets the file and derived name of that one row. */
  lemma UploadChangesOneRow(items: seq<BrandEntry>, k: int, file: UploadedFile)
    requires UniqueIds(items) && 0 <= k < |items|
    ensures FileUpload(items, items[k].id, file)
      == items[k := BrandEntry(items[k].id, Some(file), BrandNameOf(file.name))]
  {
  }

  /** Uploads keep the invariant. */
  lemma UploadKeepsWellFormed(items: seq<BrandEntry>, id: int, file: UploadedFile)
    requires WellFormed(items)
    ensures WellFormed(FileUpload(items, id, file))
  {
    var r := FileUpload(items, id, file);
    assert forall i, j :: 0 <= i < j < |r| ==> r[i].id == items[i].id && r[j].id == items[j].id;
  }

  /** Uploading a file to a row that lacked one fixes validation when it was the only such row. */
  lemma UploadCompletesForm(items: seq<BrandEntry>, k: int, file: UploadedFile)
    requires UniqueIds(items) && 0 <= k < |items|
    requires forall i :: 0 <= i < |items| && i != k ==> items[i].file.Some?
    ensures Validate(FileUpload(items, items[k].id, file))
  {
  }

  /**
   * Ids are recomputed from the rows that remain, so removing the row holding the largest
   * id and adding a row hands that id out again.
   */
  lemma IdReusedAfterRemovingLast(a: BrandEntry, b: BrandEntry)
    requires a.id + 1 == b.id
    ensures AddItem(RemoveItem([a, b], b.id))[1].id == b.id
  {
    assert [a, b][1..] == [b];
    assert WithoutId([b], b.id) == [];
    assert RemoveItem([a, b], b.id) == [a];
    assert MaxId([a]) == a.id;
  }
}
