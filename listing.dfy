/** The read-only listings routes/admin.py serves (`list_categories`, `list_subcategories`),
    and the aggregates routes/qr.py shares with them: per-subcategory and per-category
    counts, and the name-ordered subcategory rows of one category. A LEFT JOIN against the
    qr rows gives one row per matching identifier, or a single row without one. */
module Listing {
  import opened Wrappers
  import opened Seqs
  import opened Text
  import opened Schema

  /** `sc.id` is a subcategory row of category `categoryId`. */
  predicate InCategory(t: Tables, subcategoryId: nat, categoryId: nat)
  {
    1 <= subcategoryId <= |t.subcategories| && t.subcategories[subcategoryId - 1].categoryId == categoryId
  }

  /** `COUNT(d.id)` over `LEFT JOIN documents d ON sc.id = d.subcategory_id`. */
  function SubcategoryDocumentCount(t: Tables, subcategoryId: nat): nat
  {
    Count(t.documents, (d: Document) => d.subcategoryId == subcategoryId)
  }

  /** `COUNT(DISTINCT sc.id)` over the subcategories of a category. */
  function CategorySubcategoryCount(t: Tables, categoryId: nat): nat
  {
    Count(t.subcategories, (s: Subcategory) => s.categoryId == categoryId)
  }

  /** `COUNT(DISTINCT d.id)` over the documents of the subcategories of a category. */
  function CategoryDocumentCount(t: Tables, categoryId: nat): nat
  {
    Count(t.documents, (d: Document) => InCategory(t, d.subcategoryId, categoryId))
  }

  /** The identifiers of the qr rows of kind `kind` owned by row `owner`, in table order. */
  function QrIdentifiersOf(qs: seq<QrCode>, kind: QrKind, owner: nat): (r: seq<string>)
    ensures forall x :: x in r <==> exists q :: q in qs && q.kind == kind && q.owner == owner && q.identifier == x
  {
    if qs == [] then []
    else
      var q := qs[|qs| - 1];
      FrontLast(qs);
      QrIdentifiersOf(qs[..|qs| - 1], kind, owner)
        + (if q.kind == kind && q.owner == owner then [q.identifier] else [])
  }

  // ---------------------------------------------------------------- subcategories

  datatype SubcategoryRow = SubcategoryRow(
    id: nat, name: string, description: Option<string>, documentCount: nat, identifier: Option<string>)

  /** A row tells the truth about subcategory `row.id`: its name, description and document
      count, and an identifier of one of its SUBCATEGORY qr rows, or none when it has none. */
  ghost predicate DescribesSubcategory(t: Tables, row: SubcategoryRow)
  {
    1 <= row.id <= |t.subcategories|
    && row.name == t.subcategories[row.id - 1].name
    && row.description == t.subcategories[row.id - 1].description
    && row.documentCount == SubcategoryDocumentCount(t, row.id)
    && match row.identifier
       case Some(identifier) => identifier in QrIdentifiersOf(t.qrcodes, SubcategoryQr, row.id)
       case None => QrIdentifiersOf(t.qrcodes, SubcategoryQr, row.id) == []
  }

  /** The grouped rows of one subcategory. */
  function RowsOfSubcategory(t: Tables, id: nat): (r: seq<SubcategoryRow>)
    requires 1 <= id <= |t.subcategories|
    ensures r != [] && forall row :: row in r ==> row.id == id && DescribesSubcategory(t, row)
  {
    var s := t.subcategories[id - 1];
    var identifiers := QrIdentifiersOf(t.qrcodes, SubcategoryQr, id);
    var count := SubcategoryDocumentCount(t, id);
    if identifiers == [] then [SubcategoryRow(id, s.name, s.description, count, None)]
    else seq(|identifiers|, i requires 0 <= i < |identifiers| =>
               SubcategoryRow(id, s.name, s.description, count, Some(identifiers[i])))
  }

  /** `WHERE sc.category_id = categoryId` over the first `n` subcategory rows. */
  function SubcategoryRowsUpTo(t: Tables, categoryId: nat, n: nat): (r: seq<SubcategoryRow>)
    requires n <= |t.subcategories|
    ensures forall row :: row in r ==> row.id <= n && InCategory(t, row.id, categoryId) && DescribesSubcategory(t, row)
    ensures forall id :: 1 <= id <= n && InCategory(t, id, categoryId) ==> SubcategoryListed(r, id)
  {
    if n == 0 then []
    else
      var before := SubcategoryRowsUpTo(t, categoryId, n - 1);
      if t.subcategories[n - 1].categoryId == categoryId then
        var here := RowsOfSubcategory(t, n);
        assert here[0] in before + here;
        assert forall id :: SubcategoryListed(before, id) ==> SubcategoryListed(before + here, id) by {
          forall id | SubcategoryListed(before, id) ensures SubcategoryListed(before + here, id) {
            var row :| row in before && row.id == id;
            assert row in before + here;
          }
        }
        before + here
      else before
  }

  /** Subcategory `id` has a row among `rows`. */
  ghost predicate SubcategoryListed(rows: seq<SubcategoryRow>, id: nat)
  {
    exists row :: row in rows && row.id == id
  }

  predicate SubcategoryNameLe(a: SubcategoryRow, b: SubcategoryRow)
  {
    LexLe(a.name, b.name)
  }

  /** `list_subcategories`: the subcategory rows of a category, `ORDER BY sc.name`. */
  function ListSubcategories(t: Tables, categoryId: nat): (r: seq<SubcategoryRow>)
    ensures forall row :: row in r ==> InCategory(t, row.id, categoryId) && DescribesSubcategory(t, row)
    ensures forall id :: InCategory(t, id, categoryId) ==> SubcategoryListed(r, id)
  {
    var rows := SubcategoryRowsUpTo(t, categoryId, |t.subcategories|);
    var r := SortBy(rows, SubcategoryNameLe);
    assert forall row :: row in r <==> row in rows by {
      forall row ensures row in r <==> row in rows {
        assert row in r <==> row in multiset(r);
      }
    }
    assert forall id :: SubcategoryListed(rows, id) ==> SubcategoryListed(r, id) by {
      forall id | SubcategoryListed(rows, id) ensures SubcategoryListed(r, id) {
        var row :| row in rows && row.id == id;
        assert row in r;
      }
    }
    r
  }

  /** The subcategory list comes out ordered by name. */
  lemma ListSubcategoriesSorted(t: Tables, categoryId: nat)
    ensures Sorted(ListSubcategories(t, categoryId), SubcategoryNameLe)
  {
    forall a, b ensures SubcategoryNameLe(a, b) || SubcategoryNameLe(b, a) {
      LexLeTotal(a.name, b.name);
    }
    SortBySorted(SubcategoryRowsUpTo(t, categoryId, |t.subcategories|), SubcategoryNameLe);
  }

  // ---------------------------------------------------------------- categories

  datatype CategoryRow = CategoryRow(
    id: nat, name: string, description: Option<string>, subcategoryCount: nat, documentCount: nat,
    identifier: Option<string>)

  /** A row tells the truth about category `row.id`: its name, description and counts, and an
      identifier of one of its CATEGORY qr rows, or none when it has none. */
  ghost predicate DescribesCategory(t: Tables, row: CategoryRow)
  {
    1 <= row.id <= |t.categories|
    && row.name == t.categories[row.id - 1].name
    && row.description == t.categories[row.id - 1].description
    && row.subcategoryCount == CategorySubcategoryCount(t, row.id)
    && row.documentCount == CategoryDocumentCount(t, row.id)
    && match row.identifier
       case Some(identifier) => identifier in QrIdentifiersOf(t.qrcodes, CategoryQr, row.id)
       case None => QrIdentifiersOf(t.qrcodes, CategoryQr, row.id) == []
  }

  function RowsOfCategory(t: Tables, id: nat): (r: seq<CategoryRow>)
    requires 1 <= id <= |t.categories|
    ensures r != [] && forall row :: row in r ==> row.id == id && DescribesCategory(t, row)
  {
    var c := t.categories[id - 1];
    var identifiers := QrIdentifiersOf(t.qrcodes, CategoryQr, id);
    var subcategories := CategorySubcategoryCount(t, id);
    var documents := CategoryDocumentCount(t, id);
    if identifiers == [] then [CategoryRow(id, c.name, c.description, subcategories, documents, None)]
    else seq(|identifiers|, i requires 0 <= i < |identifiers| =>
               CategoryRow(id, c.name, c.description, subcategories, documents, Some(identifiers[i])))
  }

  function CategoryRowsUpTo(t: Tables, n: nat): (r: seq<CategoryRow>)
    requires n <= |t.categories|
    ensures forall row :: row in r ==> row.id <= n && DescribesCategory(t, row)
    ensures forall id :: 1 <= id <= n ==> CategoryListed(r, id)
  {
    if n == 0 then []
    else
      var before := CategoryRowsUpTo(t, n - 1);
      var here := RowsOfCategory(t, n);
      assert here[0] in before + here;
      assert forall id :: 1 <= id < n ==> CategoryListed(before + here, id) by {
        forall id | 1 <= id < n && CategoryListed(before, id) ensures CategoryListed(before + here, id) {
          var row :| row in before && row.id == id;
          assert row in before + here;
        }
      }
      before + here
  }

  /** Category `id` has a row among `rows`. */
  ghost predicate CategoryListed(rows: seq<CategoryRow>, id: nat)
  {
    exists row :: row in rows && row.id == id
  }

  predicate CategoryNameLe(a: CategoryRow, b: CategoryRow)
  {
    LexLe(a.name, b.name)
  }

  /** `list_categories`: every category with its counts and identifier, `ORDER BY c.name`. */
  function ListCategories(t: Tables): (r: seq<CategoryRow>)
    ensures forall row :: row in r ==> DescribesCategory(t, row)
    ensures forall id :: 1 <= id <= |t.categories| ==> CategoryListed(r, id)
  {
    var rows := CategoryRowsUpTo(t, |t.categories|);
    var r := SortBy(rows, CategoryNameLe);
    assert forall row :: row in r <==> row in rows by {
      forall row ensures row in r <==> row in rows {
        assert row in r <==> row in multiset(r);
      }
    }
    assert forall id :: CategoryListed(rows, id) ==> CategoryListed(r, id) by {
      forall id | CategoryListed(rows, id) ensures CategoryListed(r, id) {
        var row :| row in rows && row.id == id;
        assert row in r;
      }
    }
    r
  }

  lemma ListCategoriesSorted(t: Tables)
    ensures Sorted(ListCategories(t), CategoryNameLe)
  {
    forall a, b ensures CategoryNameLe(a, b) || CategoryNameLe(b, a) {
      LexLeTotal(a.name, b.name);
    }
    SortBySorted(CategoryRowsUpTo(t, |t.categories|), CategoryNameLe);
  }
}
