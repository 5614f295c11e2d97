/** routes/qr.py: what a scanned identifier resolves to. Every lookup is a SELECT over the
    catalog, so each is a function of a snapshot. The qr row selected is the first one with
    the identifier and the kind whose inner joins succeed; the UNIQUE identifier makes it
    the only one. */
module Resolver {
  import opened Wrappers
  import opened Seqs
  import opened Text
  import opened Schema
  import opened Listing
  import opened Allocation

  datatype DocumentView = DocumentView(
    code: string, filename: string, filePath: string, year: int, title: string, description: string,
    categoryName: string, subcategoryName: string, payload: string)

  /** One entry of a subcategory's document list; `id` is the document's row id, which stands
      for its `created_at` order. */
  datatype DocumentEntry = DocumentEntry(id: nat, code: string, filename: string, title: string, identifier: string)

  datatype SubcategoryView = SubcategoryView(
    identifier: string, categoryName: string, subcategoryName: string, description: Option<string>,
    folderPath: Option<string>, payload: string, documentCount: nat, documents: seq<DocumentEntry>)

  datatype CategoryView = CategoryView(
    identifier: string, categoryName: string, description: Option<string>, folderPath: Option<string>,
    payload: string, subcategoryCount: nat, documentCount: nat, subcategories: seq<SubcategoryRow>)

  /** The handler's outcome: one of the three views, or the 404 "QR code non trouvé". */
  datatype Resolution =
    | DocumentFound(document: DocumentView)
    | SubcategoryFound(subcategory: SubcategoryView)
    | CategoryFound(category: CategoryView)
    | NotFound

  /** `WHERE q.qr_identifier = %s AND q.qr_type = kind`, and the row's inner joins succeed. */
  predicate Selects(t: Tables, identifier: string, kind: QrKind, q: QrCode)
  {
    q.identifier == identifier && q.kind == kind
    && match kind
       case CategoryQr => IsCategory(t, q.owner)
       case SubcategoryQr => IsSubcategory(t, q.owner)
       case DocumentQr => IsDocument(t, q.owner)
  }

  /** Position of the qr row a lookup reads (`result[0]`). */
  function Selected(t: Tables, identifier: string, kind: QrKind): (r: Option<nat>)
    ensures r.Some? ==> r.value < |t.qrcodes| && Selects(t, identifier, kind, t.qrcodes[r.value])
    ensures r.None? <==> forall k :: 0 <= k < |t.qrcodes| ==> !Selects(t, identifier, kind, t.qrcodes[k])
  {
    FirstIndex(t.qrcodes, (q: QrCode) => Selects(t, identifier, kind, q))
  }

  /** Under the UNIQUE identifier, a row that qualifies is the row read. */
  lemma SelectedUnique(t: Tables, k: nat, kind: QrKind)
    requires QrIdentifiersUnique(t.qrcodes) && k < |t.qrcodes|
    requires Selects(t, t.qrcodes[k].identifier, kind, t.qrcodes[k])
    ensures Selected(t, t.qrcodes[k].identifier, kind) == Some(k)
  {
    var j := Selected(t, t.qrcodes[k].identifier, kind).value;
    assert t.qrcodes[j].identifier == t.qrcodes[k].identifier;
  }

  /** Under the UNIQUE identifier, a lookup for another kind than row `k`'s finds nothing. */
  lemma SelectedOtherKind(t: Tables, k: nat, kind: QrKind)
    requires QrIdentifiersUnique(t.qrcodes) && k < |t.qrcodes| && t.qrcodes[k].kind != kind
    ensures Selected(t, t.qrcodes[k].identifier, kind).None?
  {
    forall j | 0 <= j < |t.qrcodes| && j != k
      ensures t.qrcodes[j].identifier != t.qrcodes[k].identifier
    {
      if j < k {
        assert t.qrcodes[j].identifier != t.qrcodes[k].identifier;
      } else {
        assert t.qrcodes[k].identifier != t.qrcodes[j].identifier;
      }
    }
  }

  // ---------------------------------------------------------------- documents

  /** The columns `_resolve_document_qr` selects for qr row `q`. */
  function DocumentViewOf(t: Tables, q: QrCode): DocumentView
    requires IsDocument(t, q.owner)
  {
    var d := t.documents[q.owner - 1];
    var s := t.subcategories[d.subcategoryId - 1];
    var c := t.categories[s.categoryId - 1];
    DocumentView(d.code, d.filename, d.filePath, d.year, d.title, d.description, c.name, s.name, q.payload)
  }

  /** `_resolve_document_qr`: the identifier is matched exactly, and only against DOCUMENT
      rows; the view is the document with its subcategory's and category's names. */
  function ResolveDocument(t: Tables, identifier: string): (r: Option<DocumentView>)
    ensures r.None? <==> forall k :: 0 <= k < |t.qrcodes| ==> !Selects(t, identifier, DocumentQr, t.qrcodes[k])
    ensures r.Some? ==> exists k :: 0 <= k < |t.qrcodes| && Selects(t, identifier, DocumentQr, t.qrcodes[k])
                                   && r.value == DocumentViewOf(t, t.qrcodes[k])
  {
    match Selected(t, identifier, DocumentQr)
    case None => None
    case Some(k) => Some(DocumentViewOf(t, t.qrcodes[k]))
  }

  // ---------------------------------------------------------------- subcategories

  /** Subcategory `id` is named `name` and belongs to category `categoryId`. */
  predicate NamedIn(t: Tables, id: nat, name: string, categoryId: nat)
  {
    1 <= id <= |t.subcategories| && t.subcategories[id - 1].name == name
    && t.subcategories[id - 1].categoryId == categoryId
  }

  function EntryFor(t: Tables, id: nat, identifier: string): DocumentEntry
    requires 1 <= id <= |t.documents|
  {
    var d := t.documents[id - 1];
    DocumentEntry(id, d.code, d.filename, d.title, identifier)
  }

  /** Entry `e` is one of the rows of the document list query: a document of a subcategory
      named `name` in category `categoryId`, joined with one of its DOCUMENT qr rows. */
  ghost predicate ListedDocument(t: Tables, name: string, categoryId: nat, e: DocumentEntry)
  {
    1 <= e.id <= |t.documents| && NamedIn(t, t.documents[e.id - 1].subcategoryId, name, categoryId)
    && e.identifier in QrIdentifiersOf(t.qrcodes, DocumentQr, e.id)
    && e == EntryFor(t, e.id, e.identifier)
  }

  /** The document list of `_resolve_subcategory_qr` over the first `n` documents, newest
      (highest id) first. */
  function DocumentEntries(t: Tables, name: string, categoryId: nat, n: nat): (r: seq<DocumentEntry>)
    requires n <= |t.documents|
    ensures forall e :: e in r ==> e.id <= n && ListedDocument(t, name, categoryId, e)
    ensures forall id, x :: (1 <= id <= n && NamedIn(t, t.documents[id - 1].subcategoryId, name, categoryId)
                             && x in QrIdentifiersOf(t.qrcodes, DocumentQr, id)) ==> EntryFor(t, id, x) in r
    ensures forall i, j :: 0 <= i < j < |r| ==> r[i].id >= r[j].id
  {
    if n == 0 then []
    else
      var rest := DocumentEntries(t, name, categoryId, n - 1);
      if NamedIn(t, t.documents[n - 1].subcategoryId, name, categoryId) then
        var identifiers := QrIdentifiersOf(t.qrcodes, DocumentQr, n);
        var here := seq(|identifiers|, i requires 0 <= i < |identifiers| => EntryFor(t, n, identifiers[i]));
        assert forall x :: x in identifiers ==> EntryFor(t, n, x) in here by {
          forall x | x in identifiers ensures EntryFor(t, n, x) in here {
            var i :| 0 <= i < |identifiers| && identifiers[i] == x;
            assert here[i] == EntryFor(t, n, x);
          }
        }
        NewestFirstJoin(here, rest, n);
        here + rest
      else rest
  }

  lemma NewestFirstJoin(here: seq<DocumentEntry>, rest: seq<DocumentEntry>, n: nat)
    requires forall e :: e in here ==> e.id == n
    requires forall e :: e in rest ==> e.id <= n - 1
    requires forall i, j :: 0 <= i < j < |rest| ==> rest[i].id >= rest[j].id
    ensures forall i, j :: 0 <= i < j < |here + rest| ==> (here + rest)[i].id >= (here + rest)[j].id
  {
    forall i, j | 0 <= i < j < |here + rest|
      ensures (here + rest)[i].id >= (here + rest)[j].id
    {
      if j < |here| {
        assert here[i] in here && here[j] in here;
      } else if i < |here| {
        assert here[i] in here && rest[j - |here|] in rest;
      } else {
        assert (here + rest)[i] == rest[i - |here|];
      }
    }
  }

  /** The columns of `_resolve_subcategory_qr` for qr row `q`, with its document list. */
  function SubcategoryViewOf(t: Tables, q: QrCode): SubcategoryView
    requires IsSubcategory(t, q.owner)
  {
    var s := t.subcategories[q.owner - 1];
    var c := t.categories[s.categoryId - 1];
    SubcategoryView(q.identifier, c.name, s.name, s.description, q.folderPath, q.payload,
                    SubcategoryDocumentCount(t, q.owner), DocumentEntries(t, s.name, s.categoryId, |t.documents|))
  }

  /** `_resolve_subcategory_qr` */
  function ResolveSubcategory(t: Tables, identifier: string): (r: Option<SubcategoryView>)
    ensures r.None? <==> forall k :: 0 <= k < |t.qrcodes| ==> !Selects(t, identifier, SubcategoryQr, t.qrcodes[k])
    ensures r.Some? ==> exists k :: 0 <= k < |t.qrcodes| && Selects(t, identifier, SubcategoryQr, t.qrcodes[k])
                                   && r.value == SubcategoryViewOf(t, t.qrcodes[k])
  {
    match Selected(t, identifier, SubcategoryQr)
    case None => None
    case Some(k) => Some(SubcategoryViewOf(t, t.qrcodes[k]))
  }

  /** What a subcategory view reports: its count is the number of documents filed in the
      subcategory itself; its list holds, newest first, every document of that subcategory
      once per DOCUMENT qr row of it, and (the (category, name) key being UNIQUE) nothing from
      any other subcategory. */
  lemma SubcategoryViewContents(t: Tables, q: QrCode)
    requires SubcategoryKeysUnique(t.subcategories) && IsSubcategory(t, q.owner)
    ensures var v := SubcategoryViewOf(t, q);
      v.documentCount == Count(t.documents, (d: Document) => d.subcategoryId == q.owner)
      && (forall i, j :: 0 <= i < j < |v.documents| ==> v.documents[i].id >= v.documents[j].id)
      && (forall e :: e in v.documents ==>
            1 <= e.id <= |t.documents| && t.documents[e.id - 1].subcategoryId == q.owner
            && e.code == t.documents[e.id - 1].code
            && e.identifier in QrIdentifiersOf(t.qrcodes, DocumentQr, e.id))
      && (forall id, x :: (1 <= id <= |t.documents| && t.documents[id - 1].subcategoryId == q.owner
                           && x in QrIdentifiersOf(t.qrcodes, DocumentQr, id)) ==> EntryFor(t, id, x) in v.documents)
  {
    var s := t.subcategories[q.owner - 1];
    var v := SubcategoryViewOf(t, q);
    forall e | e in v.documents
      ensures t.documents[e.id - 1].subcategoryId == q.owner
    {
      var id := t.documents[e.id - 1].subcategoryId;
      assert NamedIn(t, id, s.name, s.categoryId);
      assert t.subcategories[id - 1].name == t.subcategories[q.owner - 1].name;
    }
  }

  // ---------------------------------------------------------------- categories

  /** The columns of `_resolve_category_qr` for qr row `q`, with its subcategory list. */
  function CategoryViewOf(t: Tables, q: QrCode): CategoryView
    requires IsCategory(t, q.owner)
  {
    var c := t.categories[q.owner - 1];
    CategoryView(q.identifier, c.name, c.description, q.folderPath, q.payload,
                 CategorySubcategoryCount(t, q.owner), CategoryDocumentCount(t, q.owner), ListSubcategories(t, q.owner))
  }

  /** `_resolve_category_qr` */
  function ResolveCategory(t: Tables, identifier: string): (r: Option<CategoryView>)
    ensures r.None? <==> forall k :: 0 <= k < |t.qrcodes| ==> !Selects(t, identifier, CategoryQr, t.qrcodes[k])
    ensures r.Some? ==> exists k :: 0 <= k < |t.qrcodes| && Selects(t, identifier, CategoryQr, t.qrcodes[k])
                                   && r.value == CategoryViewOf(t, t.qrcodes[k])
  {
    match Selected(t, identifier, CategoryQr)
    case None => None
    case Some(k) => Some(CategoryViewOf(t, t.qrcodes[k]))
  }

  /** What a category view reports: distinct subcategories and distinct documents below the
      category, and its subcategories ordered by name, each with its own document count and
      SUBCATEGORY identifier (or none), every subcategory of the category listed. */
  lemma CategoryViewContents(t: Tables, q: QrCode)
    requires IsCategory(t, q.owner)
    ensures var v := CategoryViewOf(t, q);
      v.subcategoryCount == Count(t.subcategories, (s: Subcategory) => s.categoryId == q.owner)
      && v.documentCount == Count(t.documents, (d: Document) => InCategory(t, d.subcategoryId, q.owner))
      && Sorted(v.subcategories, SubcategoryNameLe)
      && (forall row :: row in v.subcategories ==> InCategory(t, row.id, q.owner) && DescribesSubcategory(t, row))
      && (forall id :: InCategory(t, id, q.owner) ==> SubcategoryListed(v.subcategories, id))
  {
    ListSubcategoriesSorted(t, q.owner);
  }

  // ---------------------------------------------------------------- dispatch

  /** No identifier starts with both prefixes. */
  lemma PrefixesExclusive(identifier: string)
    ensures !(StartsWith(identifier, "CAT-") && StartsWith(identifier, "SUBCAT-"))
  {
    assert StartsWith(identifier, "CAT-") ==> identifier[0] == 'C';
    assert StartsWith(identifier, "SUBCAT-") ==> identifier[0] == 'S';
  }

  /** `resolve_qr` as written: an identifier without a CAT- or SUBCAT- prefix is looked up as
      a document, one with SUBCAT- as a subcategory, one with CAT- as a category. */
  function ResolveAsWritten(t: Tables, identifier: string): Resolution
  {
    if !StartsWith(identifier, "CAT-") && !StartsWith(identifier, "SUBCAT-")
       && ResolveDocument(t, identifier).Some? then
      DocumentFound(ResolveDocument(t, identifier).value)
    else if StartsWith(identifier, "SUBCAT-") && ResolveSubcategory(t, identifier).Some? then
      SubcategoryFound(ResolveSubcategory(t, identifier).value)
    else if StartsWith(identifier, "CAT-") && ResolveCategory(t, identifier).Some? then
      CategoryFound(ResolveCategory(t, identifier).value)
    else NotFound
  }

  /** The prefixes split identifiers three ways: exactly one lookup runs, chosen by the
      prefix, and the outcome is not-found exactly when that lookup finds no row. */
  lemma ResolveAsWrittenDispatch(t: Tables, identifier: string)
    ensures var r := ResolveAsWritten(t, identifier);
      var cat := StartsWith(identifier, "CAT-");
      var subcat := StartsWith(identifier, "SUBCAT-");
      (r.DocumentFound? <==> !cat && !subcat && ResolveDocument(t, identifier).Some?)
      && (r.SubcategoryFound? <==> subcat && ResolveSubcategory(t, identifier).Some?)
      && (r.CategoryFound? <==> cat && ResolveCategory(t, identifier).Some?)
      && (r.DocumentFound? ==> r.document == ResolveDocument(t, identifier).value)
      && (r.SubcategoryFound? ==> r.subcategory == ResolveSubcategory(t, identifier).value)
      && (r.CategoryFound? ==> r.category == ResolveCategory(t, identifier).value)
  {
    PrefixesExclusive(identifier);
  }

  /** A DOCUMENT identifier that happens to start with CAT- or SUBCAT- is never looked up as
      a document, so the handler can never show that document. */
  lemma PrefixedDocumentUnreachable(t: Tables, identifier: string)
    requires StartsWith(identifier, "CAT-") || StartsWith(identifier, "SUBCAT-")
    ensures !ResolveAsWritten(t, identifier).DocumentFound?
  {
  }

  /** `resolve_qr` with the document lookup as the fallback of every identifier, so that a
      document code beginning with CAT- or SUBCAT- still resolves. */
  function Resolve(t: Tables, identifier: string): Resolution
  {
    if StartsWith(identifier, "SUBCAT-") && ResolveSubcategory(t, identifier).Some? then
      SubcategoryFound(ResolveSubcategory(t, identifier).value)
    else if StartsWith(identifier, "CAT-") && ResolveCategory(t, identifier).Some? then
      CategoryFound(ResolveCategory(t, identifier).value)
    else if ResolveDocument(t, identifier).Some? then
      DocumentFound(ResolveDocument(t, identifier).value)
    else NotFound
  }

  /** Wherever the handler as written finds something, the corrected one finds the same. */
  lemma ResolveAgreesWhenFound(t: Tables, identifier: string)
    requires ResolveAsWritten(t, identifier) != NotFound
    ensures Resolve(t, identifier) == ResolveAsWritten(t, identifier)
  {
    PrefixesExclusive(identifier);
  }

  /** Every DOCUMENT qr row whose joins succeed resolves to its document, whatever its
      identifier starts with. */
  lemma ResolveFindsDocument(t: Tables, k: nat)
    requires QrIdentifiersUnique(t.qrcodes) && k < |t.qrcodes|
    requires t.qrcodes[k].kind == DocumentQr && IsDocument(t, t.qrcodes[k].owner)
    ensures Resolve(t, t.qrcodes[k].identifier) == DocumentFound(DocumentViewOf(t, t.qrcodes[k]))
  {
    SelectedOtherKind(t, k, SubcategoryQr);
    SelectedOtherKind(t, k, CategoryQr);
    SelectedUnique(t, k, DocumentQr);
  }

  /** Every CATEGORY qr row with a "CAT-" identifier whose join succeeds resolves to its
      category, in the handler as written and in the corrected one. */
  lemma ResolveFindsCategory(t: Tables, k: nat)
    requires QrIdentifiersUnique(t.qrcodes) && k < |t.qrcodes|
    requires t.qrcodes[k].kind == CategoryQr && IsCategory(t, t.qrcodes[k].owner)
    requires StartsWith(t.qrcodes[k].identifier, "CAT-")
    ensures Resolve(t, t.qrcodes[k].identifier) == CategoryFound(CategoryViewOf(t, t.qrcodes[k]))
    ensures ResolveAsWritten(t, t.qrcodes[k].identifier) == Resolve(t, t.qrcodes[k].identifier)
  {
    PrefixesExclusive(t.qrcodes[k].identifier);
    SelectedUnique(t, k, CategoryQr);
  }

  /** Every SUBCATEGORY qr row with a "SUBCAT-" identifier whose joins succeed resolves to its
      subcategory, in the handler as written and in the corrected one. */
  lemma ResolveFindsSubcategory(t: Tables, k: nat)
    requires QrIdentifiersUnique(t.qrcodes) && k < |t.qrcodes|
    requires t.qrcodes[k].kind == SubcategoryQr && IsSubcategory(t, t.qrcodes[k].owner)
    requires StartsWith(t.qrcodes[k].identifier, "SUBCAT-")
    ensures Resolve(t, t.qrcodes[k].identifier) == SubcategoryFound(SubcategoryViewOf(t, t.qrcodes[k]))
    ensures ResolveAsWritten(t, t.qrcodes[k].identifier) == Resolve(t, t.qrcodes[k].identifier)
  {
    SelectedUnique(t, k, SubcategoryQr);
  }

  lemma PrefixGrows(a: string, b: string, prefix: string)
    requires StartsWith(a, prefix)
    ensures StartsWith(a + b, prefix)
  {
    assert (a + b)[..|prefix|] == a[..|prefix|];
  }

  /** The code `create_document_simple` gives a document of category "CAT" starts with "CAT-". */
  lemma CatCodePrefix(subcategory: string, year: int, sequence: int)
    ensures StartsWith(DocumentCode("CAT", subcategory, year, sequence), "CAT-")
  {
    var a := "CAT" + "-";
    assert StartsWith(a, "CAT-");
    PrefixGrows(a, subcategory, "CAT-");
    PrefixGrows(a + subcategory, "-", "CAT-");
    PrefixGrows(a + subcategory + "-", IntToString(year), "CAT-");
    PrefixGrows(a + subcategory + "-" + IntToString(year), "-", "CAT-");
    PrefixGrows(a + subcategory + "-" + IntToString(year) + "-", Pad4(sequence), "CAT-");
  }

  /** A DOCUMENT qr row whose identifier starts with "CAT-": the handler as written looks it
      up as a category, finds none and answers not-found, while the corrected handler shows
      the document. */
  lemma CatDocumentUnreachable(t: Tables, k: nat)
    requires QrIdentifiersUnique(t.qrcodes) && k < |t.qrcodes|
    requires t.qrcodes[k].kind == DocumentQr && IsDocument(t, t.qrcodes[k].owner)
    requires StartsWith(t.qrcodes[k].identifier, "CAT-")
    ensures ResolveAsWritten(t, t.qrcodes[k].identifier) == NotFound
    ensures Resolve(t, t.qrcodes[k].identifier) == DocumentFound(DocumentViewOf(t, t.qrcodes[k]))
  {
    ResolveFindsDocument(t, k);
    SelectedOtherKind(t, k, CategoryQr);
    PrefixesExclusive(t.qrcodes[k].identifier);
  }

  /** A document `create_document_simple` files under category "CAT" gets a DOCUMENT qr row
      whose identifier, its code, starts with "CAT-", so the handler as written can never
      show it, while the corrected handler does. */
  lemma CreatedCatDocumentUnreachable(
    t: Tables, subcategory: string, filename: string, year: int, title: string, description: string,
    baseUrl: string)
    requires QrIdentifiersUnique(t.qrcodes)
    requires CreateDocumentSimple(t, "CAT", subcategory, filename, year, title, description, baseUrl).1.Some?
    ensures var r := CreateDocumentSimple(t, "CAT", subcategory, filename, year, title, description, baseUrl);
      var code := r.1.value[0].qrIdentifier;
      ResolveAsWritten(r.0, code) == NotFound && Resolve(r.0, code).DocumentFound?
  {
    var r := CreateDocumentSimple(t, "CAT", subcategory, filename, year, title, description, baseUrl);
    CreatedQrRow(t, "CAT", subcategory, filename, year, title, description, baseUrl);
    CreatedQrUnique(t, "CAT", subcategory, filename, year, title, description, baseUrl);
    CreatedCatPrefix(t, subcategory, filename, year, title, description, baseUrl);
    CatDocumentUnreachable(r.0, |t.qrcodes|);
  }

  /** The call's new qr row comes last, is a DOCUMENT row for the code it returns, and its
      document joins up to a category. */
  lemma CreatedQrRow(
    t: Tables, category: string, subcategory: string, filename: string, year: int, title: string,
    description: string, baseUrl: string)
    requires CreateDocumentSimple(t, category, subcategory, filename, year, title, description, baseUrl).1.Some?
    ensures var r := CreateDocumentSimple(t, category, subcategory, filename, year, title, description, baseUrl);
      var k := |t.qrcodes|;
      k < |r.0.qrcodes| && r.0.qrcodes[k].kind == DocumentQr
      && r.0.qrcodes[k].identifier == r.1.value[0].qrIdentifier && IsDocument(r.0, r.0.qrcodes[k].owner)
  {
    CreatedRowJoins(t, category, subcategory, filename, year, title, description, baseUrl);
  }

  /** The call keeps qr identifiers unique. */
  lemma CreatedQrUnique(
    t: Tables, category: string, subcategory: string, filename: string, year: int, title: string,
    description: string, baseUrl: string)
    requires QrIdentifiersUnique(t.qrcodes)
    requires CreateDocumentSimple(t, category, subcategory, filename, year, title, description, baseUrl).1.Some?
    ensures QrIdentifiersUnique(CreateDocumentSimple(t, category, subcategory, filename, year, title, description, baseUrl).0.qrcodes)
  {
    CreateDocumentSimpleSuccess(t, category, subcategory, filename, year, title, description, baseUrl);
    CreateDocumentSimpleFailure(t, category, subcategory, filename, year, title, description, baseUrl);
  }

  /** The code returned for category "CAT" starts with "CAT-". */
  lemma CreatedCatPrefix(
    t: Tables, subcategory: string, filename: string, year: int, title: string, description: string,
    baseUrl: string)
    requires CreateDocumentSimple(t, "CAT", subcategory, filename, year, title, description, baseUrl).1.Some?
    ensures StartsWith(CreateDocumentSimple(t, "CAT", subcategory, filename, year, title, description, baseUrl).1.value[0].qrIdentifier, "CAT-")
  {
    var r := CreateDocumentSimple(t, "CAT", subcategory, filename, year, title, description, baseUrl);
    CreateDocumentSimpleSuccess(t, "CAT", subcategory, filename, year, title, description, baseUrl);
    var categoryId := CategoryNamed(r.0, "CAT").value;
    var subcategoryId := SubcategoryNamed(r.0, categoryId, subcategory).value;
    CatCodePrefix(subcategory, year, CounterValue(r.0, subcategoryId, year));
  }

  /** A SUBCATEGORY qr row "SUBCAT-{c}-{s}" of a subcategory named s in a category named c
      resolves to them, in the handler as written and corrected. */
  lemma SubcategoryRowResolves(u: Tables, k: nat, categoryName: string, name: string)
    requires QrIdentifiersUnique(u.qrcodes) && k < |u.qrcodes|
    requires u.qrcodes[k].kind == SubcategoryQr && u.qrcodes[k].identifier == "SUBCAT-" + categoryName + "-" + name
    requires 1 <= u.qrcodes[k].owner <= |u.subcategories| && u.subcategories[u.qrcodes[k].owner - 1].name == name
    requires IsCategory(u, u.subcategories[u.qrcodes[k].owner - 1].categoryId)
    requires u.categories[u.subcategories[u.qrcodes[k].owner - 1].categoryId - 1].name == categoryName
    ensures var identifier := u.qrcodes[k].identifier;
      var v := SubcategoryViewOf(u, u.qrcodes[k]);
      Resolve(u, identifier) == SubcategoryFound(v) && ResolveAsWritten(u, identifier) == Resolve(u, identifier)
      && v.categoryName == categoryName && v.subcategoryName == name && v.folderPath == u.qrcodes[k].folderPath
  {
    SubcategoryPrefix(categoryName, name);
    ResolveFindsSubcategory(u, k);
    SubcategoryViewNames(u, u.qrcodes[k]);
  }

  /** A subcategory view names the qr row's subcategory and its category, and carries the
      row's folder. */
  lemma SubcategoryViewNames(u: Tables, q: QrCode)
    requires IsSubcategory(u, q.owner)
    ensures var v := SubcategoryViewOf(u, q);
      var s := u.subcategories[q.owner - 1];
      v.categoryName == u.categories[s.categoryId - 1].name && v.subcategoryName == s.name
      && v.folderPath == q.folderPath && v.identifier == q.identifier
  {
  }

  lemma SubcategoryPrefix(categoryName: string, name: string)
    ensures StartsWith("SUBCAT-" + categoryName + "-" + name, "SUBCAT-")
  {
    AppendAssoc("SUBCAT-" + categoryName, "-", name);
    AppendAssoc("SUBCAT-", categoryName, "-" + name);
    AppendEnds("SUBCAT-", categoryName + ("-" + name));
  }
}
