/** routes/admin.py's creation handlers, run against the catalog database: validate, then
    issue the inserts one after another. Each leaves the catalog and answers exactly as the
    matching `AdminRules` function computes from the catalog before the call. */
module Admin {
  import opened Wrappers
  import opened Text
  import opened Schema
  import opened Store
  import opened Allocation
  import opened Reconciliation
  import opened AdminRules
  import Utils

  /** `create_category` */
  method CreateCategory(db: Catalog, request: CategoryRequest, baseUrl: string) returns (reply: Reply<CreatedCategory>)
    modifies db
    ensures (db.Snapshot(), reply) == NewCategory(old(db.Snapshot()), request, baseUrl)
    ensures old(db.Valid()) ==> db.Valid()
  {
    if request.name.None? {
      return Error(400, NameRequired);
    }
    var name := Normalize(request.name.value);
    var description := OrDefault(request.description, CategoryDescription(name));
    var existing := CategoryNamed(db.Snapshot(), name);
    if existing.Some? {
      return Error(400, CategoryExists);
    }
    var categoryId := db.InsertCategory(Category(name, Some(description)));
    var row := CategoryQrRow(categoryId.value, name, baseUrl);
    var qrId := db.InsertQr(row);
    if qrId.None? {
      return Error(500, InternalError);
    }
    reply := Ok(CreatedCategory(categoryId.value, name, description, row.identifier, "Archives/" + name));
  }

  /** `create_subcategory` */
  method CreateSubcategory(db: Catalog, request: SubcategoryRequest, baseUrl: string) returns (reply: Reply<CreatedSubcategory>)
    modifies db
    ensures (db.Snapshot(), reply) == NewSubcategory(old(db.Snapshot()), request, baseUrl)
    ensures old(db.Valid()) ==> db.Valid()
  {
    if request.categoryId.None? {
      return Error(400, MissingField("category_id"));
    }
    if request.name.None? {
      return Error(400, MissingField("name"));
    }
    var name := Normalize(request.name.value);
    var description := OrDefault(request.description, SubcategoryDescription(name));
    reply := CheckSubcategory(db, request.categoryId.value, name, description, baseUrl);
  }

  /** The checks of `create_subcategory` on the normalised name, then its inserts. */
  method CheckSubcategory(db: Catalog, categoryId: int, name: string, description: string, baseUrl: string)
    returns (reply: Reply<CreatedSubcategory>)
    modifies db
    ensures (db.Snapshot(), reply) == SubcategoryChecked(old(db.Snapshot()), categoryId, name, description, baseUrl)
    ensures old(db.Valid()) ==> db.Valid()
  {
    if !(1 <= categoryId <= |db.categories|) {
      return Error(404, CategoryNotFound);
    }
    var categoryName := db.categories[categoryId - 1].name;
    var existing := SubcategoryNamed(db.Snapshot(), categoryId, name);
    if existing.Some? {
      return Error(400, SubcategoryExists);
    }
    reply := InsertSubcategoryRows(db, categoryId, name, description, categoryName, baseUrl);
  }

  /** The two inserts of `create_subcategory`, once the request has passed validation. */
  method InsertSubcategoryRows(db: Catalog, categoryId: nat, name: string, description: string, categoryName: string,
                               baseUrl: string) returns (reply: Reply<CreatedSubcategory>)
    requires SubcategoryNamed(db.Snapshot(), categoryId, name).None?
    modifies db
    ensures (db.Snapshot(), reply) == SubcategoryRows(old(db.Snapshot()), categoryId, name, description, categoryName, baseUrl)
    ensures old(db.Valid()) ==> db.Valid()
  {
    var subcategoryId := db.InsertSubcategory(Subcategory(categoryId, name, Some(description)));
    var row := SubcategoryQrRow(subcategoryId.value, categoryName, name, baseUrl);
    var qrId := db.InsertQr(row);
    if qrId.None? {
      return Error(500, InternalError);
    }
    reply := Ok(CreatedSubcategory(subcategoryId.value, name, description, categoryName, row.identifier,
                                   "Archives/" + categoryName + "/" + name));
  }

  /** `create_document`: the allocator `create_document_simple` does the writes. */
  method CreateDocument(db: Catalog, request: DocumentRequest, baseUrl: string) returns (reply: Reply<CreatedDocument>)
    modifies db
    ensures (db.Snapshot(), reply) == NewDocument(old(db.Snapshot()), request, baseUrl)
    ensures old(db.Valid()) ==> db.Valid()
  {
    if request.categoryName.None? {
      return Error(400, MissingField("category_name"));
    }
    if request.subcategoryName.None? {
      return Error(400, MissingField("subcategory_name"));
    }
    if request.filename.None? {
      return Error(400, MissingField("filename"));
    }
    if request.year.None? {
      return Error(400, MissingField("year"));
    }
    var result := Utils.CreateDocument(db, request.categoryName.value, request.subcategoryName.value,
                                       request.filename.value, request.year.value, OrDefault(request.title, ""),
                                       OrDefault(request.description, ""), baseUrl);
    if result.None? {
      return Error(500, DocumentFailed);
    }
    var info := result.value[0];
    reply := Ok(CreatedDocument(info.documentCode, info.qrIdentifier, info.qrPayload));
  }
}
