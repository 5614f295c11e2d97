/** The in-memory stand-in for the MySQL catalog database: one field per table, updated in
    place. Each statement the catalog code issues is a method whose new state is the
    corresponding `Schema` function of the old one. */
module Store {
  import opened Wrappers
  import opened Schema

  class Catalog {
    var categories: seq<Category>
    var subcategories: seq<Subcategory>
    var sequences: seq<Counter>
    var documents: seq<Document>
    var qrcodes: seq<QrCode>

    /** The tables as a value. */
    function Snapshot(): Tables
      reads this
    {
      Tables(categories, subcategories, sequences, documents, qrcodes)
    }

    /** The UNIQUE constraints hold. */
    ghost predicate Valid()
      reads this
    {
      Consistent(Snapshot())
    }

    /** A freshly initialised database: every table empty. */
    constructor ()
      ensures Snapshot() == Empty && Valid()
    {
      categories, subcategories, sequences, documents, qrcodes := [], [], [], [], [];
    }

    method InsertCategory(row: Category) returns (id: Option<nat>)
      modifies this
      ensures (Snapshot(), id) == AddCategory(old(Snapshot()), row)
      ensures old(Valid()) ==> Valid()
    {
      if CategoryNamed(Snapshot(), row.name).Some? {
        id := None;
      } else {
        categories := categories + [row];
        id := Some(|categories|);
      }
    }

    method InsertSubcategory(row: Subcategory) returns (id: Option<nat>)
      modifies this
      ensures (Snapshot(), id) == AddSubcategory(old(Snapshot()), row)
      ensures old(Valid()) ==> Valid()
    {
      if SubcategoryNamed(Snapshot(), row.categoryId, row.name).Some? {
        id := None;
      } else {
        subcategories := subcategories + [row];
        id := Some(|subcategories|);
      }
    }

    method InsertCounter(row: Counter) returns (ok: bool)
      modifies this
      ensures (Snapshot(), ok) == AddCounter(old(Snapshot()), row)
      ensures old(Valid()) ==> Valid()
    {
      ok := CounterIndex(Snapshot(), row.subcategoryId, row.year).None?;
      if ok {
        sequences := sequences + [row];
      }
    }

    method UpdateCounter(subcategoryId: nat, year: int, value: int)
      modifies this
      ensures Snapshot() == SetCounter(old(Snapshot()), subcategoryId, year, value)
      ensures old(Valid()) ==> Valid()
    {
      var i := 0;
      var updated: seq<Counter> := [];
      while i < |sequences|
        invariant 0 <= i <= |sequences| && |updated| == i
        invariant forall k :: 0 <= k < i ==>
          updated[k] == (if sequences[k].subcategoryId == subcategoryId && sequences[k].year == year
                         then sequences[k].(current := value) else sequences[k])
      {
        var row := sequences[i];
        if row.subcategoryId == subcategoryId && row.year == year {
          row := row.(current := value);
        }
        updated := updated + [row];
        i := i + 1;
      }
      sequences := updated;
    }

    method InsertDocument(row: Document) returns (id: Option<nat>)
      modifies this
      ensures (Snapshot(), id) == AddDocument(old(Snapshot()), row)
      ensures old(Valid()) ==> Valid()
    {
      if DocumentCoded(Snapshot(), row.code).Some? {
        id := None;
      } else {
        documents := documents + [row];
        id := Some(|documents|);
      }
    }

    method InsertQr(row: QrCode) returns (id: Option<nat>)
      modifies this
      ensures (Snapshot(), id) == AddQr(old(Snapshot()), row)
      ensures old(Valid()) ==> Valid()
    {
      if QrIdentified(Snapshot(), row.identifier).Some? {
        id := None;
      } else {
        qrcodes := qrcodes + [row];
        id := Some(|qrcodes|);
      }
    }
  }
}
