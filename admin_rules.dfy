/** routes/admin.py: what the creation handlers do to the catalog and what they answer, as
    functions of the tables. A request is the JSON body with each field present or absent.
    The store's autocommit keeps every write made before a failure. */
module AdminRules {
  import opened Wrappers
  import opened Text
  import opened Schema
  import opened Allocation
  import opened Reconciliation
  import opened Resolver

  /** A handler's answer: the created entity, or an HTTP status with its error message. */
  datatype Reply<T> = Ok(value: T) | Error(status: nat, message: string)

  datatype CategoryRequest = CategoryRequest(name: Option<string>, description: Option<string>)

  datatype SubcategoryRequest = SubcategoryRequest(
    categoryId: Option<int>, name: Option<string>, description: Option<string>)

  datatype DocumentRequest = DocumentRequest(
    categoryName: Option<string>, subcategoryName: Option<string>, filename: Option<string>,
    year: Option<int>, title: Option<string>, description: Option<string>)

  datatype CreatedCategory = CreatedCategory(
    id: nat, name: string, description: string, identifier: string, folderPath: string)

  datatype CreatedSubcategory = CreatedSubcategory(
    id: nat, name: string, description: string, categoryName: string, identifier: string, folderPath: string)

  datatype CreatedDocument = CreatedDocument(code: string, identifier: string, payload: string)

  const NameRequired := "Le nom de la catégorie est requis"
  const CategoryExists := "Cette catégorie existe déjà"
  const CategoryNotFound := "Catégorie non trouvée"
  const SubcategoryExists := "Cette sous-catégorie existe déjà dans cette catégorie"
  const DocumentFailed := "Impossible de créer le document"
  const InternalError := "Erreur interne du serveur"

  function MissingField(field: string): string
  {
    "Champ requis manquant: " + field
  }

  /** `data.get(key, default)` */
  function OrDefault(value: Option<string>, default: string): string
  {
    if value.Some? then value.value else default
  }

  // ---------------------------------------------------------------- create_category

  /** `create_category`: the name is required and normalised with `upper().strip()` before the
      lookup and the insert; a taken name is refused; then the category row and its CATEGORY
      qr row are inserted. A taken qr identifier makes the second insert raise: the answer is
      500 and the category row stays. */
  function NewCategory(t: Tables, request: CategoryRequest, baseUrl: string): (r: (Tables, Reply<CreatedCategory>))
    ensures Consistent(t) ==> Consistent(r.0)
    ensures r.1.Error? ==> r.1.status in {400, 500}
  {
    if request.name.None? then (t, Error(400, NameRequired))
    else
      var name := Normalize(request.name.value);
      var description := OrDefault(request.description, CategoryDescription(name));
      if CategoryNamed(t, name).Some? then (t, Error(400, CategoryExists))
      else
        var inserted := AddCategory(t, Category(name, Some(description)));
        var row := CategoryQrRow(inserted.1.value, name, baseUrl);
        var qr := AddQr(inserted.0, row);
        if qr.1.None? then (qr.0, Error(500, InternalError))
        else (qr.0, Ok(CreatedCategory(inserted.1.value, name, description, row.identifier, "Archives/" + name)))
  }

  /** A 400 answer changes nothing, and comes exactly when the name is missing or its
      normalised form is already a category name. */
  lemma NewCategoryRejects(t: Tables, request: CategoryRequest, baseUrl: string)
    ensures var r := NewCategory(t, request, baseUrl);
      ((r.1.Error? && r.1.status == 400)
         <==> (request.name.None? || CategoryNamed(t, Normalize(request.name.value)).Some?))
      && (r.1.Error? && r.1.status == 400 ==> r.0 == t)
      && (request.name.None? ==> r.1 == Error(400, NameRequired))
      && (request.name.Some? && CategoryNamed(t, Normalize(request.name.value)).Some? ==> r.1 == Error(400, CategoryExists))
  {
  }

  /** Past validation exactly one category row is added, named by the normalised name and
      described by the request or by "Catégorie {name}"; on success exactly one qr row follows
      it: the CATEGORY row "CAT-{name}" with payload "{base}/qr/CAT-{name}" and folder
      "Archives/{name}", and the answer repeats these. The qr insert fails (500) exactly when
      "CAT-{name}" is already an identifier, and the category row stays. */
  lemma NewCategoryInserts(t: Tables, request: CategoryRequest, baseUrl: string)
    requires request.name.Some? && CategoryNamed(t, Normalize(request.name.value)).None?
    ensures var r := NewCategory(t, request, baseUrl);
      var name := Normalize(request.name.value);
      var id := |t.categories| + 1;
      var description := OrDefault(request.description, "Catégorie " + name);
      r.0.categories == t.categories + [Category(name, Some(description))]
      && r.0.subcategories == t.subcategories && r.0.sequences == t.sequences && r.0.documents == t.documents
      && (r.1.Ok? <==> QrIdentified(t, "CAT-" + name).None?)
      && (r.1.Ok? ==> r.0.qrcodes == t.qrcodes + [QrCode(CategoryQr, "CAT-" + name, baseUrl + "/qr/" + ("CAT-" + name), id,
                                                          Some("Archives/" + name), "qr_images/" + ("CAT-" + name) + ".png")]
                      && r.1.value == CreatedCategory(id, name, description, "CAT-" + name, "Archives/" + name))
      && (r.1.Error? ==> r.0.qrcodes == t.qrcodes && r.1 == Error(500, InternalError))
  {
    var name := Normalize(request.name.value);
    QrIdentifiedSameRows(t, AddCategory(t, Category(name, Some(OrDefault(request.description, CategoryDescription(name))))).0,
                         "CAT-" + name);
  }

  /** Lookups by qr identifier see only the qr table. */
  lemma QrIdentifiedSameRows(t: Tables, u: Tables, identifier: string)
    requires t.qrcodes == u.qrcodes
    ensures QrIdentified(t, identifier) == QrIdentified(u, identifier)
  {
  }

  /** Creating the same category twice: the second request is refused and changes nothing,
      whatever the spelling's case or surrounding blanks. */
  lemma NewCategoryTwice(t: Tables, first: CategoryRequest, second: CategoryRequest, baseUrl: string)
    requires first.name.Some? && second.name.Some?
    requires Normalize(first.name.value) == Normalize(second.name.value)
    requires NewCategory(t, first, baseUrl).1.Ok?
    ensures var t' := NewCategory(t, first, baseUrl).0;
      NewCategory(t', second, baseUrl) == (t', Error(400, CategoryExists))
  {
    var name := Normalize(first.name.value);
    NewCategoryInserts(t, first, baseUrl);
    var t' := NewCategory(t, first, baseUrl).0;
    assert t'.categories[|t.categories|].name == name;
    assert CategoryNamed(t', name).Some?;
  }

  /** A created category resolves: its identifier leads the handler, as written and
      corrected, to the new category with its name, description and folder. */
  lemma NewCategoryResolves(t: Tables, request: CategoryRequest, baseUrl: string)
    requires Consistent(t) && NewCategory(t, request, baseUrl).1.Ok?
    ensures var r := NewCategory(t, request, baseUrl);
      var created := r.1.value;
      Resolve(r.0, created.identifier) == ResolveAsWritten(r.0, created.identifier)
      && Resolve(r.0, created.identifier).CategoryFound?
      && var v := Resolve(r.0, created.identifier).category;
      v.categoryName == created.name && v.description == Some(created.description)
      && v.folderPath == Some(created.folderPath) && v.identifier == created.identifier
  {
    NewCategoryInserts(t, request, baseUrl);
    var r := NewCategory(t, request, baseUrl);
    var k := |t.qrcodes|;
    assert r.0.qrcodes[k].identifier == r.1.value.identifier;
    assert StartsWith("CAT-" + r.1.value.name, "CAT-");
    assert r.0.categories[|t.categories|].name == r.1.value.name;
    ResolveFindsCategory(r.0, k);
  }

  // ---------------------------------------------------------------- create_subcategory

  /** `create_subcategory`: 'category_id' then 'name' are required; the name is normalised;
      the category must exist (404) and the normalised name must be free within it (400); then
      the subcategory row and its SUBCATEGORY qr row are inserted. */
  function NewSubcategory(t: Tables, request: SubcategoryRequest, baseUrl: string): (r: (Tables, Reply<CreatedSubcategory>))
    ensures Consistent(t) ==> Consistent(r.0)
    ensures r.1.Error? ==> r.1.status in {400, 404, 500}
  {
    if request.categoryId.None? then (t, Error(400, MissingField("category_id")))
    else if request.name.None? then (t, Error(400, MissingField("name")))
    else
      var name := Normalize(request.name.value);
      SubcategoryChecked(t, request.categoryId.value, name, OrDefault(request.description, SubcategoryDescription(name)),
                         baseUrl)
  }

  /** The checks of `create_subcategory` on the normalised name: the category must exist
      (404) and hold no subcategory of that name (400); then come the two inserts. */
  function SubcategoryChecked(t: Tables, categoryId: int, name: string, description: string, baseUrl: string)
    : (r: (Tables, Reply<CreatedSubcategory>))
    ensures Consistent(t) ==> Consistent(r.0)
    ensures r.1.Error? ==> r.1.status in {400, 404, 500}
  {
    if !(1 <= categoryId <= |t.categories|) then (t, Error(404, CategoryNotFound))
    else if SubcategoryNamed(t, categoryId, name).Some? then (t, Error(400, SubcategoryExists))
    else SubcategoryRows(t, categoryId, name, description, t.categories[categoryId - 1].name, baseUrl)
  }

  /** The writes of `create_subcategory` once the request passes: the subcategory row under
      the next id, then its SUBCATEGORY qr row; a taken qr identifier is the 500 answer, and
      the subcategory row stays. */
  function SubcategoryRows(t: Tables, categoryId: nat, name: string, description: string, categoryName: string,
                           baseUrl: string): (r: (Tables, Reply<CreatedSubcategory>))
    requires SubcategoryNamed(t, categoryId, name).None?
    ensures r.0.subcategories == t.subcategories + [Subcategory(categoryId, name, Some(description))]
    ensures r.1.Error? <==> QrIdentified(t, SubcategoryIdentifier(categoryName, name)).Some?
    ensures r.1.Error? ==> r.1 == Error(500, InternalError)
    ensures r.1.Ok? ==> r.1.value.id == |r.0.subcategories|
    ensures Consistent(t) ==> Consistent(r.0)
  {
    var inserted := AddSubcategory(t, Subcategory(categoryId, name, Some(description)));
    var row := SubcategoryQrRow(inserted.1.value, categoryName, name, baseUrl);
    var qr := AddQr(inserted.0, row);
    if qr.1.None? then (qr.0, Error(500, InternalError))
    else (qr.0, Ok(CreatedSubcategory(inserted.1.value, name, description, categoryName, row.identifier,
                                      "Archives/" + categoryName + "/" + name)))
  }

  /** The refusals, in the order the handler checks them: a missing 'category_id', a missing
      'name', an unknown category (404), a name taken within the category; each changes
      nothing. */
  lemma NewSubcategoryRejects(t: Tables, request: SubcategoryRequest, baseUrl: string)
    ensures var r := NewSubcategory(t, request, baseUrl);
      (request.categoryId.None? ==> r == (t, Error(400, MissingField("category_id"))))
      && (request.categoryId.Some? && request.name.None? ==> r == (t, Error(400, MissingField("name"))))
      && (request.categoryId.Some? && request.name.Some? && !(1 <= request.categoryId.value <= |t.categories|)
          ==> r == (t, Error(404, CategoryNotFound)))
      && (request.categoryId.Some? && request.name.Some? && 1 <= request.categoryId.value <= |t.categories|
          && SubcategoryNamed(t, request.categoryId.value, Normalize(request.name.value)).Some?
          ==> r == (t, Error(400, SubcategoryExists)))
      && (r.1.Ok? ==> request.categoryId.Some? && request.name.Some? && 1 <= request.categoryId.value <= |t.categories|
                      && SubcategoryNamed(t, request.categoryId.value, Normalize(request.name.value)).None?)
  {
  }

  /** On success exactly one subcategory row and one qr row are added: the SUBCATEGORY row
      "SUBCAT-{category}-{name}" with folder "Archives/{category}/{name}", where {category} is
      the name of the requested category. */
  lemma NewSubcategoryInserts(t: Tables, request: SubcategoryRequest, baseUrl: string)
    requires NewSubcategory(t, request, baseUrl).1.Ok?
    ensures var r := NewSubcategory(t, request, baseUrl);
      var created := r.1.value;
      var categoryId := request.categoryId.value;
      var name := Normalize(request.name.value);
      var categoryName := t.categories[categoryId - 1].name;
      created.id == |t.subcategories| + 1 && created.name == name && created.categoryName == categoryName
      && created.identifier == "SUBCAT-" + categoryName + "-" + name
      && created.folderPath == "Archives/" + categoryName + "/" + name
      && r.0.subcategories == t.subcategories + [Subcategory(categoryId, name, Some(created.description))]
      && r.0.qrcodes == t.qrcodes + [QrCode(SubcategoryQr, created.identifier, baseUrl + "/qr/" + created.identifier,
                                            created.id, Some(created.folderPath), "qr_images/" + created.identifier + ".png")]
      && r.0.categories == t.categories && r.0.sequences == t.sequences && r.0.documents == t.documents
  {
    var categoryId := request.categoryId.value;
    var name := Normalize(request.name.value);
    var description := OrDefault(request.description, SubcategoryDescription(name));
    var categoryName := t.categories[categoryId - 1].name;
    assert NewSubcategory(t, request, baseUrl) == SubcategoryRows(t, categoryId, name, description, categoryName, baseUrl);
    SubcategoryRowsInsert(t, categoryId, name, description, categoryName, baseUrl);
  }

  /** The rows `SubcategoryRows` appends when the qr identifier is free. */
  lemma SubcategoryRowsInsert(t: Tables, categoryId: nat, name: string, description: string, categoryName: string,
                              baseUrl: string)
    requires SubcategoryNamed(t, categoryId, name).None?
    requires SubcategoryRows(t, categoryId, name, description, categoryName, baseUrl).1.Ok?
    ensures var r := SubcategoryRows(t, categoryId, name, description, categoryName, baseUrl);
      var created := r.1.value;
      created.id == |t.subcategories| + 1 && created.name == name && created.categoryName == categoryName
      && created.description == description
      && created.identifier == "SUBCAT-" + categoryName + "-" + name
      && created.folderPath == "Archives/" + categoryName + "/" + name
      && r.0.qrcodes == t.qrcodes + [QrCode(SubcategoryQr, created.identifier, baseUrl + "/qr/" + created.identifier,
                                            created.id, Some(created.folderPath), "qr_images/" + created.identifier + ".png")]
      && r.0.categories == t.categories && r.0.sequences == t.sequences && r.0.documents == t.documents
  {
    var inserted := AddSubcategory(t, Subcategory(categoryId, name, Some(description)));
    assert inserted.1 == Some(|t.subcategories| + 1);
  }

  /** A created subcategory resolves, as written and corrected, to itself within its
      category. */
  lemma NewSubcategoryResolves(t: Tables, request: SubcategoryRequest, baseUrl: string)
    requires Consistent(t) && NewSubcategory(t, request, baseUrl).1.Ok?
    ensures var r := NewSubcategory(t, request, baseUrl);
      var created := r.1.value;
      Resolve(r.0, created.identifier) == ResolveAsWritten(r.0, created.identifier)
      && Resolve(r.0, created.identifier).SubcategoryFound?
      && var v := Resolve(r.0, created.identifier).subcategory;
      v.categoryName == created.categoryName && v.subcategoryName == created.name
      && v.folderPath == Some(created.folderPath)
  {
    NewSubcategoryInserts(t, request, baseUrl);
    var r := NewSubcategory(t, request, baseUrl);
    var created := r.1.value;
    AppendedSubcategoryResolves(t, r.0, request.categoryId.value, created.name, created.description,
                                created.categoryName, created.identifier, created.folderPath, baseUrl);
  }

  /** The rows a successful create_subcategory appends resolve to the new subcategory. */
  lemma AppendedSubcategoryResolves(
    t: Tables, u: Tables, categoryId: nat, name: string, description: string, categoryName: string,
    identifier: string, folderPath: string, baseUrl: string)
    requires QrIdentifiersUnique(u.qrcodes)
    requires 1 <= categoryId <= |t.categories| && t.categories[categoryId - 1].name == categoryName
    requires identifier == "SUBCAT-" + categoryName + "-" + name
    requires u.categories == t.categories
    requires u.subcategories == t.subcategories + [Subcategory(categoryId, name, Some(description))]
    requires u.qrcodes == t.qrcodes + [QrCode(SubcategoryQr, identifier, baseUrl + "/qr/" + identifier,
                                              |t.subcategories| + 1, Some(folderPath), "qr_images/" + identifier + ".png")]
    ensures Resolve(u, identifier) == ResolveAsWritten(u, identifier)
    ensures Resolve(u, identifier).SubcategoryFound?
    ensures var v := Resolve(u, identifier).subcategory;
      v.categoryName == categoryName && v.subcategoryName == name && v.folderPath == Some(folderPath)
  {
    var k := |t.qrcodes|;
    assert u.subcategories[|t.subcategories|] == Subcategory(categoryId, name, Some(description));
    SubcategoryRowResolves(u, k, categoryName, name);
  }

  // ---------------------------------------------------------------- create_document

  /** `create_document`: 'category_name', 'subcategory_name', 'filename' and 'year' are
      required, in that order; title and description default to empty text; then the
      allocator runs, and its failure is answered with 500. */
  function NewDocument(t: Tables, request: DocumentRequest, baseUrl: string): (r: (Tables, Reply<CreatedDocument>))
    ensures r.1.Error? ==> r.1.status in {400, 500}
  {
    if request.categoryName.None? then (t, Error(400, MissingField("category_name")))
    else if request.subcategoryName.None? then (t, Error(400, MissingField("subcategory_name")))
    else if request.filename.None? then (t, Error(400, MissingField("filename")))
    else if request.year.None? then (t, Error(400, MissingField("year")))
    else
      var result := CreateDocumentSimple(t, request.categoryName.value, request.subcategoryName.value,
                                         request.filename.value, request.year.value, OrDefault(request.title, ""),
                                         OrDefault(request.description, ""), baseUrl);
      if result.1.None? then (result.0, Error(500, DocumentFailed))
      else
        var info := result.1.value[0];
        (result.0, Ok(CreatedDocument(info.documentCode, info.qrIdentifier, info.qrPayload)))
  }

  /** A missing field is refused with its name, first missing first, and changes nothing;
      with all four present the answer is 500 exactly when the allocator fails. */
  lemma NewDocumentRejects(t: Tables, request: DocumentRequest, baseUrl: string)
    ensures var r := NewDocument(t, request, baseUrl);
      (request.categoryName.None? ==> r == (t, Error(400, MissingField("category_name"))))
      && (request.categoryName.Some? && request.subcategoryName.None? ==> r == (t, Error(400, MissingField("subcategory_name"))))
      && (request.categoryName.Some? && request.subcategoryName.Some? && request.filename.None?
          ==> r == (t, Error(400, MissingField("filename"))))
      && (request.categoryName.Some? && request.subcategoryName.Some? && request.filename.Some? && request.year.None?
          ==> r == (t, Error(400, MissingField("year"))))
      && (r.1.Error? && r.1.status == 500 <==>
            request.categoryName.Some? && request.subcategoryName.Some? && request.filename.Some? && request.year.Some?
            && CreateDocumentSimple(t, request.categoryName.value, request.subcategoryName.value, request.filename.value,
                                    request.year.value, OrDefault(request.title, ""), OrDefault(request.description, ""),
                                    baseUrl).1.None?)
  {
    assert MissingField("category_name") != MissingField("year") by {
      assert MissingField("category_name")[23] != MissingField("year")[23];
    }
  }

  /** A created document resolves through the corrected handler to the document whose code
      the answer reports; its identifier is that code, and its payload points at it. */
  lemma NewDocumentResolves(t: Tables, request: DocumentRequest, baseUrl: string)
    requires QrIdentifiersUnique(t.qrcodes) && NewDocument(t, request, baseUrl).1.Ok?
    ensures var r := NewDocument(t, request, baseUrl);
      var created := r.1.value;
      created.identifier == created.code && created.payload == Payload(baseUrl, created.code)
      && Resolve(r.0, created.identifier).DocumentFound?
      && Resolve(r.0, created.identifier).document.code == created.code
  {
    var category, subcategory := request.categoryName.value, request.subcategoryName.value;
    var filename, year := request.filename.value, request.year.value;
    var title, description := OrDefault(request.title, ""), OrDefault(request.description, "");
    CreateDocumentSimpleSuccess(t, category, subcategory, filename, year, title, description, baseUrl);
    CreatedQrRow(t, category, subcategory, filename, year, title, description, baseUrl);
    CreatedQrUnique(t, category, subcategory, filename, year, title, description, baseUrl);
    var r := CreateDocumentSimple(t, category, subcategory, filename, year, title, description, baseUrl);
    var k := |t.qrcodes|;
    ResolveFindsDocument(r.0, k);
    assert r.0.documents[r.0.qrcodes[k].owner - 1].code == r.1.value[0].documentCode;
  }
}
