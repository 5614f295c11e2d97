/** routes/utils.py: the allocator's store writes, step by step on the catalog database. Each
    method leaves the catalog and returns exactly what the matching `Allocation` function
    computes from the catalog before the call. */
module Utils {
  import opened Wrappers
  import opened Schema
  import opened Store
  import opened Allocation

  /** `get_or_create_category` (routes/utils.py inserts no description; the reconciler passes
      one). */
  method FindOrInsertCategory(db: Catalog, name: string, description: Option<string>) returns (id: nat)
    modifies db
    ensures (db.Snapshot(), id) == GetOrCreateCategory(old(db.Snapshot()), name, description)
    ensures old(db.Valid()) ==> db.Valid()
  {
    var found := CategoryNamed(db.Snapshot(), name);
    if found.Some? {
      id := found.value;
    } else {
      var inserted := db.InsertCategory(Category(name, description));
      id := inserted.value;
    }
  }

  /** `get_or_create_subcategory` */
  method FindOrInsertSubcategory(db: Catalog, categoryId: nat, name: string, description: Option<string>) returns (id: nat)
    modifies db
    ensures (db.Snapshot(), id) == GetOrCreateSubcategory(old(db.Snapshot()), categoryId, name, description)
    ensures old(db.Valid()) ==> db.Valid()
  {
    var found := SubcategoryNamed(db.Snapshot(), categoryId, name);
    if found.Some? {
      id := found.value;
    } else {
      var inserted := db.InsertSubcategory(Subcategory(categoryId, name, description));
      id := inserted.value;
    }
  }

  /** `get_next_sequence`: read the counter, then update it in place or create it at 1. */
  method GetNextSequence(db: Catalog, subcategoryId: nat, year: int) returns (n: int)
    modifies db
    ensures (db.Snapshot(), n) == NextSequence(old(db.Snapshot()), subcategoryId, year)
    ensures old(db.Valid()) ==> db.Valid()
  {
    var i := CounterIndex(db.Snapshot(), subcategoryId, year);
    if i.Some? {
      n := db.sequences[i.value].current + 1;
      db.UpdateCounter(subcategoryId, year, n);
    } else {
      var _ := db.InsertCounter(Counter(subcategoryId, year, 1));
      n := 1;
    }
  }

  /** `create_document_simple`; `baseUrl` is the caller's base URL rendered as text. */
  method CreateDocument(
    db: Catalog, category: string, subcategory: string, filename: string, year: int,
    title: string, description: string, baseUrl: string) returns (result: Option<seq<CreatedCode>>)
    modifies db
    ensures (db.Snapshot(), result) ==
      CreateDocumentSimple(old(db.Snapshot()), category, subcategory, filename, year, title, description, baseUrl)
    ensures old(db.Valid()) ==> db.Valid()
  {
    var categoryId := FindOrInsertCategory(db, category, None);
    var subcategoryId := FindOrInsertSubcategory(db, categoryId, subcategory, None);
    var sequence := GetNextSequence(db, subcategoryId, year);
    var code := DocumentCode(category, subcategory, year, sequence);
    var path := ArchivePath(category, subcategory, year, filename);
    var documentId := db.InsertDocument(Document(subcategoryId, code, filename, path, year, title, description));
    if documentId.None? {
      return None;
    }
    var payload := Payload(baseUrl, code);
    var qrId := db.InsertQr(QrCode(DocumentQr, code, payload, documentId.value, None, ImagePath(code)));
    if qrId.None? {
      return None;
    }
    result := Some([CreatedCode(code, code, payload)]);
  }
}
