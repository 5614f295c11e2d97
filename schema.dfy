/** The catalog tables created by init_db.py, as values. A row's AUTO_INCREMENT id is its
    1-based position in its table (the catalog core never deletes catalog rows). The UNIQUE
    constraints are the invariant `Consistent`; an INSERT that would break one fails and
    leaves the tables unchanged, as the store rejects it. */
module Schema {
  import opened Wrappers

  datatype Category = Category(name: string, description: Option<string>)

  datatype Subcategory = Subcategory(categoryId: nat, name: string, description: Option<string>)

  /** A `sequences` row: the last sequence number handed out for one (subcategory, year). */
  datatype Counter = Counter(subcategoryId: nat, year: int, current: int)

  datatype Document = Document(
    subcategoryId: nat, code: string, filename: string, filePath: string,
    year: int, title: string, description: string)

  datatype QrKind = CategoryQr | SubcategoryQr | DocumentQr

  /** A `qrcodes` row; `owner` is the id in whichever of category_id, subcategory_id and
      document_id its kind fills in. */
  datatype QrCode = QrCode(
    kind: QrKind, identifier: string, payload: string, owner: nat,
    folderPath: Option<string>, imagePath: string)

  datatype Tables = Tables(
    categories: seq<Category>, subcategories: seq<Subcategory>, sequences: seq<Counter>,
    documents: seq<Document>, qrcodes: seq<QrCode>)

  const Empty := Tables([], [], [], [], [])

  // ---------------------------------------------------------------- UNIQUE constraints

  predicate CategoryNamesUnique(cs: seq<Category>)
  {
    forall i, j :: 0 <= i < j < |cs| ==> cs[i].name != cs[j].name
  }

  predicate SubcategoryKeysUnique(ss: seq<Subcategory>)
  {
    forall i, j :: 0 <= i < j < |ss| ==>
      ss[i].categoryId != ss[j].categoryId || ss[i].name != ss[j].name
  }

  predicate CounterKeysUnique(ks: seq<Counter>)
  {
    forall i, j :: 0 <= i < j < |ks| ==>
      ks[i].subcategoryId != ks[j].subcategoryId || ks[i].year != ks[j].year
  }

  predicate DocumentCodesUnique(ds: seq<Document>)
  {
    forall i, j :: 0 <= i < j < |ds| ==> ds[i].code != ds[j].code
  }

  predicate QrIdentifiersUnique(qs: seq<QrCode>)
  {
    forall i, j :: 0 <= i < j < |qs| ==> qs[i].identifier != qs[j].identifier
  }

  /** Every UNIQUE constraint of the catalog tables holds. */
  predicate Consistent(t: Tables)
  {
    CategoryNamesUnique(t.categories) && SubcategoryKeysUnique(t.subcategories)
    && CounterKeysUnique(t.sequences) && DocumentCodesUnique(t.documents)
    && QrIdentifiersUnique(t.qrcodes)
  }

  // ---------------------------------------------------------------- joins

  /** `JOIN categories c ON ... = c.id` succeeds for category `id`. */
  predicate IsCategory(t: Tables, id: nat)
  {
    1 <= id <= |t.categories|
  }

  /** `JOIN categories c ON sc.category_id = c.id` succeeds for subcategory `id`. */
  predicate IsSubcategory(t: Tables, id: nat)
  {
    1 <= id <= |t.subcategories| && IsCategory(t, t.subcategories[id - 1].categoryId)
  }

  /** Both joins from document `id` up to its category succeed. */
  predicate IsDocument(t: Tables, id: nat)
  {
    1 <= id <= |t.documents| && IsSubcategory(t, t.documents[id - 1].subcategoryId)
  }

  // ---------------------------------------------------------------- SELECT ... WHERE key

  /** `SELECT id FROM categories WHERE name = %s` */
  function CategoryNamed(t: Tables, name: string): (id: Option<nat>)
    ensures id.Some? ==> 1 <= id.value <= |t.categories| && t.categories[id.value - 1].name == name
    ensures id.Some? ==> forall j :: 0 <= j < id.value - 1 ==> t.categories[j].name != name
    ensures id.None? <==> forall j :: 0 <= j < |t.categories| ==> t.categories[j].name != name
  {
    CategoryFrom(t.categories, name, 0)
  }

  function CategoryFrom(cs: seq<Category>, name: string, k: nat): (id: Option<nat>)
    requires k <= |cs|
    requires forall j :: 0 <= j < k ==> cs[j].name != name
    ensures id.Some? ==> k < id.value <= |cs| && cs[id.value - 1].name == name
    ensures id.Some? ==> forall j :: 0 <= j < id.value - 1 ==> cs[j].name != name
    ensures id.None? <==> forall j :: 0 <= j < |cs| ==> cs[j].name != name
    decreases |cs| - k
  {
    if k == |cs| then None
    else if cs[k].name == name then Some(k + 1)
    else CategoryFrom(cs, name, k + 1)
  }

  /** `SELECT id FROM subcategories WHERE category_id = %s AND name = %s` */
  function SubcategoryNamed(t: Tables, categoryId: nat, name: string): (id: Option<nat>)
    ensures id.Some? ==> (1 <= id.value <= |t.subcategories|
      && t.subcategories[id.value - 1].categoryId == categoryId
      && t.subcategories[id.value - 1].name == name)
    ensures id.Some? ==> forall j :: 0 <= j < id.value - 1 ==>
      t.subcategories[j].categoryId != categoryId || t.subcategories[j].name != name
    ensures id.None? <==> forall j :: 0 <= j < |t.subcategories| ==>
      t.subcategories[j].categoryId != categoryId || t.subcategories[j].name != name
  {
    SubcategoryFrom(t.subcategories, categoryId, name, 0)
  }

  function SubcategoryFrom(ss: seq<Subcategory>, categoryId: nat, name: string, k: nat): (id: Option<nat>)
    requires k <= |ss|
    requires forall j :: 0 <= j < k ==> ss[j].categoryId != categoryId || ss[j].name != name
    ensures id.Some? ==> (k < id.value <= |ss|
      && ss[id.value - 1].categoryId == categoryId && ss[id.value - 1].name == name)
    ensures id.Some? ==> forall j :: 0 <= j < id.value - 1 ==>
      ss[j].categoryId != categoryId || ss[j].name != name
    ensures id.None? <==> forall j :: 0 <= j < |ss| ==>
      ss[j].categoryId != categoryId || ss[j].name != name
    decreases |ss| - k
  {
    if k == |ss| then None
    else if ss[k].categoryId == categoryId && ss[k].name == name then Some(k + 1)
    else SubcategoryFrom(ss, categoryId, name, k + 1)
  }

  /** Position of the `sequences` row for (subcategory_id, year). */
  function CounterIndex(t: Tables, subcategoryId: nat, year: int): (i: Option<nat>)
    ensures i.Some? ==> (i.value < |t.sequences|
      && t.sequences[i.value].subcategoryId == subcategoryId && t.sequences[i.value].year == year)
    ensures i.Some? ==> forall j :: 0 <= j < i.value ==>
      t.sequences[j].subcategoryId != subcategoryId || t.sequences[j].year != year
    ensures i.None? <==> forall j :: 0 <= j < |t.sequences| ==>
      t.sequences[j].subcategoryId != subcategoryId || t.sequences[j].year != year
  {
    CounterFrom(t.sequences, subcategoryId, year, 0)
  }

  function CounterFrom(ks: seq<Counter>, subcategoryId: nat, year: int, k: nat): (i: Option<nat>)
    requires k <= |ks|
    requires forall j :: 0 <= j < k ==> ks[j].subcategoryId != subcategoryId || ks[j].year != year
    ensures i.Some? ==> (k <= i.value < |ks|
      && ks[i.value].subcategoryId == subcategoryId && ks[i.value].year == year)
    ensures i.Some? ==> forall j :: 0 <= j < i.value ==>
      ks[j].subcategoryId != subcategoryId || ks[j].year != year
    ensures i.None? <==> forall j :: 0 <= j < |ks| ==>
      ks[j].subcategoryId != subcategoryId || ks[j].year != year
    decreases |ks| - k
  {
    if k == |ks| then None
    else if ks[k].subcategoryId == subcategoryId && ks[k].year == year then Some(k)
    else CounterFrom(ks, subcategoryId, year, k + 1)
  }

  /** `SELECT id FROM documents WHERE document_code = %s` (the UNIQUE key). */
  function DocumentCoded(t: Tables, code: string): (id: Option<nat>)
    ensures id.Some? ==> 1 <= id.value <= |t.documents| && t.documents[id.value - 1].code == code
    ensures id.None? <==> forall j :: 0 <= j < |t.documents| ==> t.documents[j].code != code
  {
    DocumentCodedFrom(t.documents, code, 0)
  }

  function DocumentCodedFrom(ds: seq<Document>, code: string, k: nat): (id: Option<nat>)
    requires k <= |ds|
    requires forall j :: 0 <= j < k ==> ds[j].code != code
    ensures id.Some? ==> k < id.value <= |ds| && ds[id.value - 1].code == code
    ensures id.None? <==> forall j :: 0 <= j < |ds| ==> ds[j].code != code
    decreases |ds| - k
  {
    if k == |ds| then None
    else if ds[k].code == code then Some(k + 1)
    else DocumentCodedFrom(ds, code, k + 1)
  }

  /** `SELECT id, document_code FROM documents WHERE filename = %s AND file_path = %s`,
      keeping the first row. */
  function DocumentFiled(t: Tables, filename: string, filePath: string): (id: Option<nat>)
    ensures id.Some? ==> (1 <= id.value <= |t.documents|
      && t.documents[id.value - 1].filename == filename
      && t.documents[id.value - 1].filePath == filePath)
    ensures id.Some? ==> forall j :: 0 <= j < id.value - 1 ==>
      t.documents[j].filename != filename || t.documents[j].filePath != filePath
    ensures id.None? <==> forall j :: 0 <= j < |t.documents| ==>
      t.documents[j].filename != filename || t.documents[j].filePath != filePath
  {
    DocumentFiledFrom(t.documents, filename, filePath, 0)
  }

  function DocumentFiledFrom(ds: seq<Document>, filename: string, filePath: string, k: nat): (id: Option<nat>)
    requires k <= |ds|
    requires forall j :: 0 <= j < k ==> ds[j].filename != filename || ds[j].filePath != filePath
    ensures id.Some? ==> (k < id.value <= |ds|
      && ds[id.value - 1].filename == filename && ds[id.value - 1].filePath == filePath)
    ensures id.Some? ==> forall j :: 0 <= j < id.value - 1 ==>
      ds[j].filename != filename || ds[j].filePath != filePath
    ensures id.None? <==> forall j :: 0 <= j < |ds| ==>
      ds[j].filename != filename || ds[j].filePath != filePath
    decreases |ds| - k
  {
    if k == |ds| then None
    else if ds[k].filename == filename && ds[k].filePath == filePath then Some(k + 1)
    else DocumentFiledFrom(ds, filename, filePath, k + 1)
  }

  /** `SELECT id FROM qrcodes WHERE qr_identifier = %s` */
  function QrIdentified(t: Tables, identifier: string): (id: Option<nat>)
    ensures id.Some? ==> 1 <= id.value <= |t.qrcodes| && t.qrcodes[id.value - 1].identifier == identifier
    ensures id.Some? ==> forall j :: 0 <= j < id.value - 1 ==> t.qrcodes[j].identifier != identifier
    ensures id.None? <==> forall j :: 0 <= j < |t.qrcodes| ==> t.qrcodes[j].identifier != identifier
  {
    QrFrom(t.qrcodes, identifier, 0)
  }

  function QrFrom(qs: seq<QrCode>, identifier: string, k: nat): (id: Option<nat>)
    requires k <= |qs|
    requires forall j :: 0 <= j < k ==> qs[j].identifier != identifier
    ensures id.Some? ==> k < id.value <= |qs| && qs[id.value - 1].identifier == identifier
    ensures id.Some? ==> forall j :: 0 <= j < id.value - 1 ==> qs[j].identifier != identifier
    ensures id.None? <==> forall j :: 0 <= j < |qs| ==> qs[j].identifier != identifier
    decreases |qs| - k
  {
    if k == |qs| then None
    else if qs[k].identifier == identifier then Some(k + 1)
    else QrFrom(qs, identifier, k + 1)
  }

  // ---------------------------------------------------------------- INSERT / UPDATE

  /** INSERT INTO categories: fails exactly when the name is taken; otherwise the new row
      gets the next id. Either way the UNIQUE constraints keep holding. */
  function AddCategory(t: Tables, row: Category): (r: (Tables, Option<nat>))
    ensures r.1.None? <==> CategoryNamed(t, row.name).Some?
    ensures r.1.None? ==> r.0 == t
    ensures r.1.Some? ==> (r.0 == t.(categories := t.categories + [row])
      && r.1.value == |r.0.categories|)
    ensures r.1.Some? ==> CategoryNamed(r.0, row.name) == r.1
    ensures Consistent(t) ==> Consistent(r.0)
  {
    if CategoryNamed(t, row.name).Some? then (t, None)
    else
      var t' := t.(categories := t.categories + [row]);
      assert t'.categories[|t.categories|] == row;
      assert forall j :: 0 <= j < |t.categories| ==> t'.categories[j] == t.categories[j];
      (t', Some(|t.categories| + 1))
  }

  /** INSERT INTO subcategories: fails exactly when (category_id, name) is taken. */
  function AddSubcategory(t: Tables, row: Subcategory): (r: (Tables, Option<nat>))
    ensures r.1.None? <==> SubcategoryNamed(t, row.categoryId, row.name).Some?
    ensures r.1.None? ==> r.0 == t
    ensures r.1.Some? ==> (r.0 == t.(subcategories := t.subcategories + [row])
      && r.1.value == |r.0.subcategories|)
    ensures r.1.Some? ==> SubcategoryNamed(r.0, row.categoryId, row.name) == r.1
    ensures Consistent(t) ==> Consistent(r.0)
  {
    if SubcategoryNamed(t, row.categoryId, row.name).Some? then (t, None)
    else
      var t' := t.(subcategories := t.subcategories + [row]);
      assert t'.subcategories[|t.subcategories|] == row;
      assert forall j :: 0 <= j < |t.subcategories| ==> t'.subcategories[j] == t.subcategories[j];
      (t', Some(|t.subcategories| + 1))
  }

  /** INSERT INTO sequences: fails exactly when (subcategory_id, year) is taken. */
  function AddCounter(t: Tables, row: Counter): (r: (Tables, bool))
    ensures !r.1 <==> CounterIndex(t, row.subcategoryId, row.year).Some?
    ensures !r.1 ==> r.0 == t
    ensures r.1 ==> r.0 == t.(sequences := t.sequences + [row])
    ensures r.1 ==> CounterIndex(r.0, row.subcategoryId, row.year) == Some(|t.sequences|)
    ensures Consistent(t) ==> Consistent(r.0)
  {
    if CounterIndex(t, row.subcategoryId, row.year).Some? then (t, false)
    else
      var t' := t.(sequences := t.sequences + [row]);
      assert t'.sequences[|t.sequences|] == row;
      assert forall j :: 0 <= j < |t.sequences| ==> t'.sequences[j] == t.sequences[j];
      (t', true)
  }

  /** `UPDATE sequences SET current_sequence = %s WHERE subcategory_id = %s AND year = %s`:
      every matching row takes the value, every other row and table is untouched. */
  function SetCounter(t: Tables, subcategoryId: nat, year: int, value: int): (r: Tables)
    ensures r == t.(sequences := r.sequences) && |r.sequences| == |t.sequences|
    ensures forall i :: 0 <= i < |t.sequences| ==>
      r.sequences[i] == (if t.sequences[i].subcategoryId == subcategoryId && t.sequences[i].year == year
                         then t.sequences[i].(current := value) else t.sequences[i])
    ensures Consistent(t) ==> Consistent(r)
  {
    t.(sequences := seq(|t.sequences|, i requires 0 <= i < |t.sequences| =>
      if t.sequences[i].subcategoryId == subcategoryId && t.sequences[i].year == year
      then t.sequences[i].(current := value) else t.sequences[i]))
  }

  /** INSERT INTO documents: fails exactly when the document code is taken. */
  function AddDocument(t: Tables, row: Document): (r: (Tables, Option<nat>))
    ensures r.1.None? <==> DocumentCoded(t, row.code).Some?
    ensures r.1.None? ==> r.0 == t
    ensures r.1.Some? ==> (r.0 == t.(documents := t.documents + [row])
      && r.1.value == |r.0.documents|)
    ensures Consistent(t) ==> Consistent(r.0)
  {
    if DocumentCoded(t, row.code).Some? then (t, None)
    else (t.(documents := t.documents + [row]), Some(|t.documents| + 1))
  }

  /** INSERT INTO qrcodes: fails exactly when the identifier is taken. */
  function AddQr(t: Tables, row: QrCode): (r: (Tables, Option<nat>))
    ensures r.1.None? <==> QrIdentified(t, row.identifier).Some?
    ensures r.1.None? ==> r.0 == t
    ensures r.1.Some? ==> (r.0 == t.(qrcodes := t.qrcodes + [row])
      && r.1.value == |r.0.qrcodes|)
    ensures QrIdentified(r.0, row.identifier).Some?
    ensures Consistent(t) ==> Consistent(r.0)
  {
    if QrIdentified(t, row.identifier).Some? then (t, None)
    else
      var t' := t.(qrcodes := t.qrcodes + [row]);
      assert t'.qrcodes[|t.qrcodes|] == row;
      (t', Some(|t.qrcodes| + 1))
  }

  // ---------------------------------------------------------------- growth

  /** The last number handed out for (subcategory, year); 0 before the first. */
  function CounterValue(t: Tables, subcategoryId: nat, year: int): int
  {
    match CounterIndex(t, subcategoryId, year)
    case Some(i) => t.sequences[i].current
    case None => 0
  }

  /** `t2` is reachable from `t1` by the catalog's writes: rows are only appended, counter
      rows keep their keys, and no counter goes down. */
  ghost predicate Extends(t1: Tables, t2: Tables)
  {
    t1.categories <= t2.categories && t1.subcategories <= t2.subcategories
    && t1.documents <= t2.documents && t1.qrcodes <= t2.qrcodes
    && |t1.sequences| <= |t2.sequences|
    && (forall i :: 0 <= i < |t1.sequences| ==>
      t2.sequences[i].subcategoryId == t1.sequences[i].subcategoryId
      && t2.sequences[i].year == t1.sequences[i].year)
    && forall s: nat, y: int {:trigger CounterValue(t1, s, y), CounterValue(t2, s, y)} ::
      CounterValue(t1, s, y) <= CounterValue(t2, s, y)
  }

  lemma ExtendsTransitive(t1: Tables, t2: Tables, t3: Tables)
    requires Extends(t1, t2) && Extends(t2, t3)
    ensures Extends(t1, t3)
  {
    forall s: nat, y: int
      ensures CounterValue(t1, s, y) <= CounterValue(t3, s, y)
    {
      assert CounterValue(t1, s, y) <= CounterValue(t2, s, y) <= CounterValue(t3, s, y);
    }
  }

  /** Three steps that each keep the invariant and only grow the tables do so together. */
  lemma ExtendsChain(t0: Tables, t1: Tables, t2: Tables, t3: Tables)
    requires Extends(t0, t1) && Extends(t1, t2) && Extends(t2, t3)
    ensures Extends(t0, t3)
  {
    ExtendsTransitive(t0, t1, t2);
    ExtendsTransitive(t0, t2, t3);
  }

  /** Once a category name is found, later writes never change which id it resolves to. */
  lemma CategoryPersists(t1: Tables, t2: Tables, name: string)
    requires Extends(t1, t2) && CategoryNamed(t1, name).Some?
    ensures CategoryNamed(t2, name) == CategoryNamed(t1, name)
  {
    var id := CategoryNamed(t1, name).value;
    assert t2.categories[id - 1] == t1.categories[id - 1];
  }

  lemma SubcategoryPersists(t1: Tables, t2: Tables, categoryId: nat, name: string)
    requires Extends(t1, t2) && SubcategoryNamed(t1, categoryId, name).Some?
    ensures SubcategoryNamed(t2, categoryId, name) == SubcategoryNamed(t1, categoryId, name)
  {
    var id := SubcategoryNamed(t1, categoryId, name).value;
    assert t2.subcategories[id - 1] == t1.subcategories[id - 1];
  }

  lemma CounterPersists(t1: Tables, t2: Tables, subcategoryId: nat, year: int)
    requires Extends(t1, t2) && CounterIndex(t1, subcategoryId, year).Some?
    ensures CounterIndex(t2, subcategoryId, year) == CounterIndex(t1, subcategoryId, year)
  {
    var i := CounterIndex(t1, subcategoryId, year).value;
    assert t2.sequences[i].subcategoryId == subcategoryId && t2.sequences[i].year == year;
  }

  lemma DocumentPersists(t1: Tables, t2: Tables, filename: string, filePath: string)
    requires Extends(t1, t2) && DocumentFiled(t1, filename, filePath).Some?
    ensures DocumentFiled(t2, filename, filePath) == DocumentFiled(t1, filename, filePath)
  {
    var id := DocumentFiled(t1, filename, filePath).value;
    assert t2.documents[id - 1] == t1.documents[id - 1];
  }

  lemma QrPersists(t1: Tables, t2: Tables, identifier: string)
    requires Extends(t1, t2) && QrIdentified(t1, identifier).Some?
    ensures QrIdentified(t2, identifier) == QrIdentified(t1, identifier)
  {
    var id := QrIdentified(t1, identifier).value;
    assert t2.qrcodes[id - 1] == t1.qrcodes[id - 1];
  }
}
