/** What the identifier allocator of routes/utils.py computes, as functions of the catalog
    tables: get-or-create of categories and subcategories, the per-(subcategory, year)
    sequence counter, the document code / archive path / payload formats, and
    `create_document_simple`, which chains them. The archive reconciler uses the same
    get-or-create and counter, only with a description on new rows. */
module Allocation {
  import opened Wrappers
  import opened Text
  import opened Schema

  // ---------------------------------------------------------------- get-or-create

  /** The id of the category named exactly `name`, inserting it first when there is none. */
  function GetOrCreateCategory(t: Tables, name: string, description: Option<string>): (r: (Tables, nat))
    ensures CategoryNamed(t, name).Some? ==> r == (t, CategoryNamed(t, name).value)
    ensures CategoryNamed(t, name).None? ==>
      r.0 == t.(categories := t.categories + [Category(name, description)])
    ensures CategoryNamed(r.0, name) == Some(r.1)
    ensures Extends(t, r.0)
  {
    match CategoryNamed(t, name)
    case Some(id) => (t, id)
    case None =>
      var (t', id) := AddCategory(t, Category(name, description));
      (t', id.value)
  }

  /** The id of the subcategory `name` of category `categoryId`, inserting it when missing. */
  function GetOrCreateSubcategory(t: Tables, categoryId: nat, name: string, description: Option<string>): (r: (Tables, nat))
    ensures SubcategoryNamed(t, categoryId, name).Some? ==>
      r == (t, SubcategoryNamed(t, categoryId, name).value)
    ensures SubcategoryNamed(t, categoryId, name).None? ==>
      r.0 == t.(subcategories := t.subcategories + [Subcategory(categoryId, name, description)])
    ensures SubcategoryNamed(r.0, categoryId, name) == Some(r.1)
    ensures Extends(t, r.0)
  {
    match SubcategoryNamed(t, categoryId, name)
    case Some(id) => (t, id)
    case None =>
      var (t', id) := AddSubcategory(t, Subcategory(categoryId, name, description));
      (t', id.value)
  }

  /** A second get-or-create with the same name returns the same id and writes nothing. */
  lemma GetOrCreateCategoryIdempotent(t: Tables, name: string, d1: Option<string>, d2: Option<string>)
    ensures var (t1, id1) := GetOrCreateCategory(t, name, d1);
      GetOrCreateCategory(t1, name, d2) == (t1, id1)
  {
  }

  lemma GetOrCreateSubcategoryIdempotent(t: Tables, categoryId: nat, name: string, d1: Option<string>, d2: Option<string>)
    ensures var (t1, id1) := GetOrCreateSubcategory(t, categoryId, name, d1);
      GetOrCreateSubcategory(t1, categoryId, name, d2) == (t1, id1)
  {
  }

  /** Subcategories are keyed by (category, name): the same name under two categories yields
      two distinct rows, each remembering its own category. */
  lemma SubcategoryKeyedByCategory(t: Tables, c1: nat, c2: nat, name: string)
    requires c1 != c2
    ensures var (t1, s1) := GetOrCreateSubcategory(t, c1, name, None);
      var (t2, s2) := GetOrCreateSubcategory(t1, c2, name, None);
      s1 != s2 && t2.subcategories[s1 - 1].categoryId == c1 && t2.subcategories[s2 - 1].categoryId == c2
  {
    var (t1, s1) := GetOrCreateSubcategory(t, c1, name, None);
    var (t2, s2) := GetOrCreateSubcategory(t1, c2, name, None);
    assert t2.subcategories[s1 - 1] == t1.subcategories[s1 - 1];
  }

  // ---------------------------------------------------------------- sequence counter

  /** Two tables whose counter rows carry the same keys in the same order find every key at
      the same position. */
  lemma SameKeysSameIndex(t: Tables, u: Tables, subcategoryId: nat, year: int)
    requires |t.sequences| == |u.sequences|
    requires forall i :: 0 <= i < |t.sequences| ==>
      t.sequences[i].subcategoryId == u.sequences[i].subcategoryId && t.sequences[i].year == u.sequences[i].year
    ensures CounterIndex(t, subcategoryId, year) == CounterIndex(u, subcategoryId, year)
  {
    var a := CounterIndex(t, subcategoryId, year);
    var b := CounterIndex(u, subcategoryId, year);
    if a.Some? {
      assert b.Some?;
    }
  }

  /** `get_next_sequence`: one more than the counter, which is stored; a missing counter is
      created at 1. Nothing but that counter changes. */
  function NextSequence(t: Tables, subcategoryId: nat, year: int): (r: (Tables, int))
    ensures r.1 == CounterValue(t, subcategoryId, year) + 1
    ensures CounterValue(r.0, subcategoryId, year) == r.1
    ensures CounterIndex(t, subcategoryId, year).None? ==>
      r.0.sequences == t.sequences + [Counter(subcategoryId, year, 1)]
    ensures CounterIndex(t, subcategoryId, year).Some? ==> |r.0.sequences| == |t.sequences|
    ensures r.0 == t.(sequences := r.0.sequences)
    ensures forall s: nat, y: int :: s != subcategoryId || y != year ==>
      CounterValue(r.0, s, y) == CounterValue(t, s, y)
    ensures Extends(t, r.0)
  {
    match CounterIndex(t, subcategoryId, year)
    case Some(i) =>
      var next := t.sequences[i].current + 1;
      var t' := SetCounter(t, subcategoryId, year, next);
      SameKeysSameIndexAll(t, t');
      (t', next)
    case None =>
      var (t', _) := AddCounter(t, Counter(subcategoryId, year, 1));
      AppendedCounterKeepsOthers(t, subcategoryId, year);
      (t', 1)
  }

  lemma SameKeysSameIndexAll(t: Tables, u: Tables)
    requires |t.sequences| == |u.sequences|
    requires forall i :: 0 <= i < |t.sequences| ==>
      t.sequences[i].subcategoryId == u.sequences[i].subcategoryId && t.sequences[i].year == u.sequences[i].year
    ensures forall s: nat, y: int :: CounterIndex(t, s, y) == CounterIndex(u, s, y)
  {
    forall s: nat, y: int ensures CounterIndex(t, s, y) == CounterIndex(u, s, y) {
      SameKeysSameIndex(t, u, s, y);
    }
  }

  lemma AppendedCounterKeepsOthers(t: Tables, subcategoryId: nat, year: int)
    ensures var u := t.(sequences := t.sequences + [Counter(subcategoryId, year, 1)]);
      forall s: nat, y: int :: s != subcategoryId || y != year ==> CounterIndex(u, s, y) == CounterIndex(t, s, y)
  {
    var u := t.(sequences := t.sequences + [Counter(subcategoryId, year, 1)]);
    forall s: nat, y: int | s != subcategoryId || y != year
      ensures CounterIndex(u, s, y) == CounterIndex(t, s, y)
    {
      if CounterIndex(t, s, y).Some? {
        assert u.sequences[CounterIndex(t, s, y).value] == t.sequences[CounterIndex(t, s, y).value];
      }
    }
  }

  lemma OtherCountersTransitive(t1: Tables, t2: Tables, t3: Tables, subcategoryId: nat, year: int)
    requires forall s: nat, y: int :: s != subcategoryId || y != year ==> CounterValue(t2, s, y) == CounterValue(t1, s, y)
    requires forall s: nat, y: int :: s != subcategoryId || y != year ==> CounterValue(t3, s, y) == CounterValue(t2, s, y)
    ensures forall s: nat, y: int :: s != subcategoryId || y != year ==> CounterValue(t3, s, y) == CounterValue(t1, s, y)
  {
  }

  /** `n` calls in a row for one (subcategory, year): the numbers handed out, last first. */
  function NextSequences(t: Tables, subcategoryId: nat, year: int, n: nat): (r: (Tables, seq<int>))
    ensures |r.1| == n
  {
    if n == 0 then (t, [])
    else
      var before := NextSequences(t, subcategoryId, year, n - 1);
      var step := NextSequence(before.0, subcategoryId, year);
      (step.0, before.1 + [step.1])
  }

  /** `numbers` are c + 1, c + 2, ... with no gap. */
  ghost predicate Consecutive(numbers: seq<int>, c: int)
  {
    forall k :: 0 <= k < |numbers| ==> numbers[k] == c + k + 1
  }

  /** The numbers are consecutive with no gap, starting right after the counter (so 1..n for
      a fresh counter), and the counter ends at the last one. */
  lemma {:induction false} SequentialNumbers(t: Tables, subcategoryId: nat, year: int, n: nat)
    ensures Consecutive(NextSequences(t, subcategoryId, year, n).1, CounterValue(t, subcategoryId, year))
    ensures CounterValue(NextSequences(t, subcategoryId, year, n).0, subcategoryId, year)
      == CounterValue(t, subcategoryId, year) + n
  {
    if n > 0 {
      var c := CounterValue(t, subcategoryId, year);
      var before := NextSequences(t, subcategoryId, year, n - 1);
      SequentialNumbers(t, subcategoryId, year, n - 1);
      SequentialStep(before, subcategoryId, year, c);
    }
  }

  /** One more call extends a run of consecutive numbers by the next one. */
  lemma SequentialStep(before: (Tables, seq<int>), subcategoryId: nat, year: int, c: int)
    requires Consecutive(before.1, c)
    requires CounterValue(before.0, subcategoryId, year) == c + |before.1|
    ensures var step := NextSequence(before.0, subcategoryId, year);
      Consecutive(before.1 + [step.1], c) && CounterValue(step.0, subcategoryId, year) == c + |before.1| + 1
  {
    var got := before.1 + [NextSequence(before.0, subcategoryId, year).1];
    forall k | 0 <= k < |got|
      ensures got[k] == c + k + 1
    {
      if k < |before.1| {
        assert got[k] == before.1[k];
      }
    }
  }

  /** The calls for one (subcategory, year) move no other counter. */
  lemma {:induction false} SequentialNumbersKeepOthers(t: Tables, subcategoryId: nat, year: int, n: nat)
    ensures forall s: nat, y: int :: s != subcategoryId || y != year ==>
      CounterValue(NextSequences(t, subcategoryId, year, n).0, s, y) == CounterValue(t, s, y)
  {
    if n > 0 {
      var before := NextSequences(t, subcategoryId, year, n - 1);
      SequentialNumbersKeepOthers(t, subcategoryId, year, n - 1);
      OtherCountersTransitive(t, before.0, NextSequence(before.0, subcategoryId, year).0, subcategoryId, year);
    }
  }

  // ---------------------------------------------------------------- formats

  /** `f"{category}-{subcategory}-{year}-{sequence:04d}"` */
  function DocumentCode(category: string, subcategory: string, year: int, sequence: int): string
  {
    category + "-" + subcategory + "-" + IntToString(year) + "-" + Pad4(sequence)
  }

  /** `f"Archives/{category}/{subcategory}/{year}/{filename}"` */
  function ArchivePath(category: string, subcategory: string, year: int, filename: string): string
  {
    "Archives/" + category + "/" + subcategory + "/" + IntToString(year) + "/" + filename
  }

  /** `f"{base_url}/qr/{identifier}"`: the URL a printed code points to. */
  function Payload(baseUrl: string, identifier: string): string
  {
    baseUrl + "/qr/" + identifier
  }

  /** `f"qr_images/{identifier}.png"` */
  function ImagePath(identifier: string): string
  {
    "qr_images/" + identifier + ".png"
  }

  /** A code starts with the names exactly as given and ends with the sequence number,
      written with at least four digits that read back as that number. */
  lemma DocumentCodeShape(category: string, subcategory: string, year: int, sequence: nat)
    ensures var code := DocumentCode(category, subcategory, year, sequence);
      var tail := Pad4(sequence);
      StartsWith(code, category + "-" + subcategory + "-") && EndsWith(code, "-" + tail)
      && |tail| >= 4 && IsDigits(tail) && DigitsValue(tail) == sequence
  {
    var tail := Pad4(sequence);
    Pad4Digits(sequence);
    var front := category + "-" + subcategory + "-";
    var withYear := front + IntToString(year);
    AppendAssoc(withYear, "-", tail);
    AppendEnds(withYear, "-" + tail);
    AppendAssoc(front, IntToString(year), "-" + tail);
    AppendEnds(front, IntToString(year) + ("-" + tail));
  }

  /** Root files' codes: "GENERAL-DIVERS-2025-" followed by the padded number. */
  lemma GeneralCode(sequence: int)
    ensures DocumentCode("GENERAL", "DIVERS", 2025, sequence) == "GENERAL-DIVERS-2025-" + Pad4(sequence)
  {
    Year2025Text();
    assert "GENERAL" + "-" == "GENERAL-";
    assert "GENERAL-" + "DIVERS" == "GENERAL-DIVERS";
    assert "GENERAL-DIVERS" + "-" == "GENERAL-DIVERS-";
    assert "GENERAL-DIVERS-" + "2025" == "GENERAL-DIVERS-2025";
    assert "GENERAL-DIVERS-2025" + "-" == "GENERAL-DIVERS-2025-";
  }

  /** Within one category, subcategory and year, distinct sequence numbers give distinct codes. */
  lemma DocumentCodeInjective(category: string, subcategory: string, year: int, a: int, b: int)
    requires DocumentCode(category, subcategory, year, a) == DocumentCode(category, subcategory, year, b)
    ensures a == b
  {
    var prefix := category + "-" + subcategory + "-" + IntToString(year) + "-";
    assert DocumentCode(category, subcategory, year, a) == prefix + Pad4(a);
    assert DocumentCode(category, subcategory, year, b) == prefix + Pad4(b);
    assert Pad4(a) == (prefix + Pad4(a))[|prefix|..];
    assert Pad4(b) == (prefix + Pad4(b))[|prefix|..];
    Pad4Injective(a, b);
  }

  /** Names are used as passed, so a '-' inside a name lets two different placements share a
      code: category "A-B"/subcategory "C" and category "A"/subcategory "B-C". */
  lemma DocumentCodeAmbiguous()
    ensures DocumentCode("A-B", "C", 2025, 1) == DocumentCode("A", "B-C", 2025, 1)
  {
  }

  // ---------------------------------------------------------------- create_document_simple

  /** One entry of the list `create_document_simple` returns. */
  datatype CreatedCode = CreatedCode(documentCode: string, qrIdentifier: string, qrPayload: string)

  /** Steps 1 to 3: the category and subcategory ids (created when missing, without
      description) and the next sequence number. */
  function Place(t: Tables, category: string, subcategory: string, year: int): (r: (Tables, nat, int))
    ensures CategoryNamed(r.0, category).Some?
    ensures SubcategoryNamed(r.0, CategoryNamed(r.0, category).value, subcategory) == Some(r.1)
    ensures r.2 == CounterValue(r.0, r.1, year)
    ensures r.0.documents == t.documents && r.0.qrcodes == t.qrcodes
    ensures Extends(t, r.0)
    ensures IsSubcategory(r.0, r.1)
  {
    var (t1, categoryId) := GetOrCreateCategory(t, category, None);
    var (t2, subcategoryId) := GetOrCreateSubcategory(t1, categoryId, subcategory, None);
    var (t3, sequence) := NextSequence(t2, subcategoryId, year);
    PlaceSteps(t, t1, t2, t3, category, categoryId, subcategory, subcategoryId);
    (t3, subcategoryId, sequence)
  }

  /** A successful call's new qr row comes last: a DOCUMENT row for the returned code, owned
      by the new document, whose joins up to its category succeed. */
  lemma CreatedRowJoins(
    t: Tables, category: string, subcategory: string, filename: string, year: int,
    title: string, description: string, baseUrl: string)
    requires CreateDocumentSimple(t, category, subcategory, filename, year, title, description, baseUrl).1.Some?
    ensures var r := CreateDocumentSimple(t, category, subcategory, filename, year, title, description, baseUrl);
      var k := |t.qrcodes|;
      k < |r.0.qrcodes| && r.0.qrcodes[k].kind == DocumentQr
      && r.0.qrcodes[k].identifier == r.1.value[0].qrIdentifier && IsDocument(r.0, r.0.qrcodes[k].owner)
  {
    var placed := Place(t, category, subcategory, year);
    RecordedRowJoins(placed.0, PlacedDocument(placed, category, subcategory, filename, year, title, description), baseUrl);
  }

  /** The DOCUMENT qr row steps 6 to 8 append names the new document, whose joins succeed
      when its subcategory's do. */
  lemma RecordedRowJoins(t: Tables, row: Document, baseUrl: string)
    requires RecordDocument(t, row, baseUrl).1.Some? && IsSubcategory(t, row.subcategoryId)
    ensures var r := RecordDocument(t, row, baseUrl);
      var k := |t.qrcodes|;
      k < |r.0.qrcodes| && r.0.qrcodes[k].kind == DocumentQr
      && r.0.qrcodes[k].identifier == r.1.value[0].qrIdentifier && IsDocument(r.0, r.0.qrcodes[k].owner)
  {
    var r := RecordDocument(t, row, baseUrl);
    assert r.0.documents[|t.documents|] == row;
  }

  lemma PlaceSteps(t: Tables, t1: Tables, t2: Tables, t3: Tables,
                   category: string, categoryId: nat, subcategory: string, subcategoryId: nat)
    requires Extends(t, t1) && Extends(t1, t2) && Extends(t2, t3)
    requires CategoryNamed(t1, category) == Some(categoryId)
    requires SubcategoryNamed(t2, categoryId, subcategory) == Some(subcategoryId)
    requires t3.categories == t2.categories == t1.categories && t3.subcategories == t2.subcategories
    ensures CategoryNamed(t3, category) == Some(categoryId)
    ensures SubcategoryNamed(t3, categoryId, subcategory) == Some(subcategoryId)
    ensures IsSubcategory(t3, subcategoryId)
    ensures Extends(t, t3)
  {
    assert CategoryNamed(t3, category) == CategoryNamed(t1, category);
    assert SubcategoryNamed(t3, categoryId, subcategory) == SubcategoryNamed(t2, categoryId, subcategory);
    ExtendsTransitive(t, t1, t2);
    ExtendsTransitive(t, t2, t3);
  }

  /** Steps 6 to 8: insert the document row, then its DOCUMENT qr row, whose identifier is
      the document code. Either insert fails when its UNIQUE key is taken; a document row
      inserted before a failing qr insert stays. */
  function RecordDocument(t: Tables, row: Document, baseUrl: string): (r: (Tables, Option<seq<CreatedCode>>))
    ensures r.1.None? <==> DocumentCoded(t, row.code).Some? || QrIdentified(t, row.code).Some?
    ensures DocumentCoded(t, row.code).Some? ==> r.0 == t
    ensures DocumentCoded(t, row.code).None? ==> r.0.documents == t.documents + [row]
    ensures r.1.Some? ==> r.1.value == [CreatedCode(row.code, row.code, Payload(baseUrl, row.code))]
    ensures r.1.Some? ==>
      r.0 == t.(documents := t.documents + [row],
                qrcodes := t.qrcodes + [QrCode(DocumentQr, row.code, Payload(baseUrl, row.code),
                                              |t.documents| + 1, None, ImagePath(row.code))])
    ensures Extends(t, r.0)
  {
    var (t4, documentId) := AddDocument(t, row);
    if documentId.None? then (t4, None)
    else
      var payload := Payload(baseUrl, row.code);
      var (t5, qrId) := AddQr(t4, QrCode(DocumentQr, row.code, payload, documentId.value, None, ImagePath(row.code)));
      if qrId.None? then (t5, None)
      else (t5, Some([CreatedCode(row.code, row.code, payload)]))
  }

  /** `create_document_simple`: place the document, record it with its code and archive path,
      and return the one-element list of code, identifier and payload; None on failure. */
  function CreateDocumentSimple(
    t: Tables, category: string, subcategory: string, filename: string, year: int,
    title: string, description: string, baseUrl: string): (r: (Tables, Option<seq<CreatedCode>>))
  {
    var placed := Place(t, category, subcategory, year);
    RecordDocument(placed.0, PlacedDocument(placed, category, subcategory, filename, year, title, description), baseUrl)
  }

  /** The document row of steps 4 to 6: code and archive path built from the names, the year
      and the number `placed` allocated. */
  function PlacedDocument(
    placed: (Tables, nat, int), category: string, subcategory: string, filename: string, year: int,
    title: string, description: string): Document
  {
    Document(placed.1, DocumentCode(category, subcategory, year, placed.2), filename,
             ArchivePath(category, subcategory, year, filename), year, title, description)
  }

  /** What a successful call leaves behind: a one-element list whose identifier is the code
      and whose payload points at it; one new document row carrying the code, the archive
      path, the year and the texts, in subcategory `subcategory` of category `category`,
      whose counter for `year` moved up by one to the sequence number in the code; one new
      DOCUMENT qr row for it. */
  lemma CreateDocumentSimpleSuccess(
    t: Tables, category: string, subcategory: string, filename: string, year: int,
    title: string, description: string, baseUrl: string)
    requires CreateDocumentSimple(t, category, subcategory, filename, year, title, description, baseUrl).1.Some?
    ensures var (t', out) := CreateDocumentSimple(t, category, subcategory, filename, year, title, description, baseUrl);
      var a := out.value[0];
      var categoryId := CategoryNamed(t', category).value;
      var subcategoryId := SubcategoryNamed(t', categoryId, subcategory).value;
      var sequence := CounterValue(t', subcategoryId, year);
      SubcategoryNamed(t', categoryId, subcategory).Some? && |out.value| == 1 && a.qrIdentifier == a.documentCode && a.qrPayload == Payload(baseUrl, a.documentCode)
      && a.documentCode == DocumentCode(category, subcategory, year, sequence)
      && sequence == CounterValue(t, subcategoryId, year) + 1
      && t'.documents == t.documents + [Document(subcategoryId, a.documentCode, filename,
           ArchivePath(category, subcategory, year, filename), year, title, description)]
      && t'.qrcodes == t.qrcodes + [QrCode(DocumentQr, a.documentCode, a.qrPayload, |t'.documents|,
           None, ImagePath(a.documentCode))]
  {
    var (t3, subcategoryId, sequence) := Place(t, category, subcategory, year);
    var (t', out) := CreateDocumentSimple(t, category, subcategory, filename, year, title, description, baseUrl);
    PlaceCounter(t, category, subcategory, year);
    var categoryId := CategoryNamed(t3, category).value;
    assert SubcategoryNamed(t3, categoryId, subcategory) == Some(subcategoryId);
    assert t'.categories == t3.categories && t'.subcategories == t3.subcategories;
    assert t'.sequences == t3.sequences;
  }

  /** The number `Place` hands out is one more than the counter before the call. */
  lemma PlaceCounter(t: Tables, category: string, subcategory: string, year: int)
    ensures var (t3, subcategoryId, sequence) := Place(t, category, subcategory, year);
      sequence == CounterValue(t, subcategoryId, year) + 1
  {
    var (t1, categoryId) := GetOrCreateCategory(t, category, None);
    var (t2, subcategoryId) := GetOrCreateSubcategory(t1, categoryId, subcategory, None);
    assert t2.sequences == t.sequences;
    assert CounterIndex(t2, subcategoryId, year) == CounterIndex(t, subcategoryId, year);
  }

  /** The call fails exactly when the code it allocates is already a document code or a qr
      identifier. Even then the category, the subcategory and the consumed sequence number
      stay written, and so does the document row when only its qr insert failed: nothing is
      rolled back. */
  lemma CreateDocumentSimpleFailure(
    t: Tables, category: string, subcategory: string, filename: string, year: int,
    title: string, description: string, baseUrl: string)
    ensures var (t3, subcategoryId, sequence) := Place(t, category, subcategory, year);
      var code := DocumentCode(category, subcategory, year, sequence);
      var (t', out) := CreateDocumentSimple(t, category, subcategory, filename, year, title, description, baseUrl);
      (out.None? <==> DocumentCoded(t, code).Some? || QrIdentified(t, code).Some?)
      && (out.None? ==> CategoryNamed(t', category).Some?
                        && SubcategoryNamed(t', CategoryNamed(t', category).value, subcategory) == Some(subcategoryId)
                        && CounterValue(t', subcategoryId, year) == CounterValue(t, subcategoryId, year) + 1
                        && (QrIdentified(t, code).Some? && DocumentCoded(t, code).None? ==> |t'.documents| == |t.documents| + 1))
      && Extends(t, t')
  {
    var (t3, subcategoryId, sequence) := Place(t, category, subcategory, year);
    PlaceCounter(t, category, subcategory, year);
    var (t', out) := CreateDocumentSimple(t, category, subcategory, filename, year, title, description, baseUrl);
    ExtendsTransitive(t, t3, t');
    assert t'.categories == t3.categories && t'.subcategories == t3.subcategories;
    assert t'.sequences == t3.sequences;
  }
}
