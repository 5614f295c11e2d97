/** What archive_scanner.py does to the catalog, as functions of the catalog tables and of
    the archives directory tree, which is an input value here. A scan makes three passes:
    category directories, then their subdirectories, then the `.pdf` files below each
    subcategory plus the `.pdf` files at the root. Each pass is a left fold over the list of
    items its loops visit, in the order they visit them. */
module Reconciliation {
  import opened Wrappers
  import opened Seqs
  import opened Text
  import opened Schema
  import opened Allocation

  /** A directory entry, in the order the directory listing returns it. */
  datatype Entry = File(name: string) | Dir(name: string, entries: seq<Entry>)

  /** What the category pass remembers about one category directory. */
  datatype CategoryJob = CategoryJob(name: string, id: nat, entries: seq<Entry>)

  /** What the subcategory pass remembers about one subcategory directory. */
  datatype SubcategoryJob = SubcategoryJob(
    categoryName: string, subcategoryName: string, id: nat, categoryId: nat, entries: seq<Entry>)

  /** One directory entry met by the subcategory pass, with the category it sits in. */
  datatype Candidate = Candidate(category: CategoryJob, entry: Entry)

  /** A `.pdf` file found below a subcategory: its directories below the subcategory and its name. */
  datatype Found = Found(dirs: seq<string>, name: string)

  /** One file the file pass registers. */
  datatype FileJob = InSubcategory(sub: SubcategoryJob, dirs: seq<string>, filename: string)
                   | AtRoot(filename: string)

  datatype Status = New | Existing

  /** The dictionary `_register_file` and `_register_root_file` return. */
  datatype FileInfo = FileInfo(documentId: nat, documentCode: string, filename: string, status: Status)

  /** The counts a completed scan reports. */
  datatype Summary = Summary(categories: nat, subcategories: nat, newFiles: nat, existingFiles: nat, processed: nat)

  // ---------------------------------------------------------------- paths and formats

  /** `str(path).replace('\\', '/')` for a relative path made of `parts`. */
  function PathText(parts: seq<string>): string
  {
    Replace(Join(parts, "/"), "\\", "/")
  }

  /** `part.isdigit() and 2020 <= int(part) <= 2030`, for a part of decimal digits of any
      script. */
  predicate IsYearPart(part: string)
  {
    IsDecimalText(part) && 2020 <= DecimalTextValue(part) <= 2030
  }

  /** `_extract_year_from_path`: the first path part made of digits whose value lies in
      2020..2030, else 2025. */
  function ExtractYear(parts: seq<string>): (year: int)
    ensures 2020 <= year <= 2030
    ensures (forall i :: 0 <= i < |parts| ==> !IsYearPart(parts[i])) ==> year == 2025
    ensures forall i :: (0 <= i < |parts| && IsYearPart(parts[i])
      && forall j :: 0 <= j < i ==> !IsYearPart(parts[j])) ==> year == DecimalTextValue(parts[i])
  {
    if parts == [] then 2025
    else if IsYearPart(parts[0]) then DecimalTextValue(parts[0])
    else
      assert forall i :: 1 <= i < |parts| ==> parts[1..][i - 1] == parts[i];
      ExtractYear(parts[1..])
  }

  /** A year directory is read whatever the script of its digits; a part outside 2020..2030
      is passed over. */
  lemma ExtractYearExamples()
    ensures ExtractYear(["Archives", "RH", "2023", "a.pdf"]) == 2023
    ensures ExtractYear(["Archives", "RH", "\U{662}\U{660}\U{662}\U{663}", "a.pdf"]) == 2023
    ensures ExtractYear(["Archives", "RH", "2019", "a.pdf"]) == 2025
  {
    ArabicIndicYear();
    AsciiYears();
    NamesAreNotYears();
  }

  lemma AsciiYears()
    ensures IsDecimalText("2023") && DecimalTextValue("2023") == 2023
    ensures IsDecimalText("2019") && DecimalTextValue("2019") == 2019
  {
    assert "2023"[..3] == "202" && "202"[..2] == "20" && "20"[..1] == "2";
    assert "2019"[..3] == "201" && "201"[..2] == "20";
  }

  lemma NamesAreNotYears()
    ensures !IsYearPart("Archives") && !IsYearPart("RH") && !IsYearPart("a.pdf")
  {
    assert !IsDecimal('A') && !IsDecimal('R') && !IsDecimal('a');
  }

  function CategoryIdentifier(category: string): string
  {
    "CAT-" + category
  }

  function SubcategoryIdentifier(category: string, subcategory: string): string
  {
    "SUBCAT-" + category + "-" + subcategory
  }

  /** The CATEGORY qr row `_create_category_qr` inserts. */
  function CategoryQrRow(id: nat, category: string, baseUrl: string): QrCode
  {
    var identifier := CategoryIdentifier(category);
    QrCode(CategoryQr, identifier, Payload(baseUrl, identifier), id, Some("Archives/" + category), ImagePath(identifier))
  }

  /** The SUBCATEGORY qr row `_create_subcategory_qr` inserts. */
  function SubcategoryQrRow(id: nat, category: string, subcategory: string, baseUrl: string): QrCode
  {
    var identifier := SubcategoryIdentifier(category, subcategory);
    QrCode(SubcategoryQr, identifier, Payload(baseUrl, identifier), id,
           Some("Archives/" + category + "/" + subcategory), ImagePath(identifier))
  }

  /** The DOCUMENT qr row `_create_document_qr` inserts. */
  function DocumentQrRow(id: nat, code: string, baseUrl: string): QrCode
  {
    QrCode(DocumentQr, code, Payload(baseUrl, code), id, None, ImagePath(code))
  }

  /** `_create_*_qr`: insert the row unless one with its identifier exists. */
  function EnsureQr(t: Tables, row: QrCode): (r: Tables)
    ensures QrIdentified(t, row.identifier).Some? ==> r == t
    ensures QrIdentified(t, row.identifier).None? ==> r == t.(qrcodes := t.qrcodes + [row])
    ensures QrIdentified(r, row.identifier).Some?
    ensures Extends(t, r)
  {
    AddQr(t, row).0
  }

  function CategoryDescription(name: string): string
  {
    "Catégorie " + name
  }

  function SubcategoryDescription(name: string): string
  {
    "Sous-catégorie " + name
  }

  // ---------------------------------------------------------------- the directory tree

  /** `rglob('*.pdf')` below a directory whose entries are `entries`, keeping files only: the
      matching files of a directory come first, then those below each subdirectory in turn. */
  function PdfFilesIn(entries: seq<Entry>, dirs: seq<string>): seq<Found>
    decreases entries, 1
  {
    PdfFilesHere(entries, dirs) + PdfFilesBelow(entries, dirs)
  }

  function PdfFilesHere(entries: seq<Entry>, dirs: seq<string>): (r: seq<Found>)
    ensures forall f :: f in r ==> f.dirs == dirs && EndsWith(f.name, ".pdf")
  {
    if entries == [] then []
    else
      var here := PdfFilesHere(entries[..|entries| - 1], dirs);
      var e := entries[|entries| - 1];
      if e.File? && EndsWith(e.name, ".pdf") then here + [Found(dirs, e.name)] else here
  }

  function PdfFilesBelow(entries: seq<Entry>, dirs: seq<string>): seq<Found>
    decreases entries, 0
  {
    if entries == [] then []
    else
      var e := entries[0];
      (if e.Dir? then PdfFilesIn(e.entries, dirs + [e.name]) else []) + PdfFilesBelow(entries[1..], dirs)
  }

  /** Root entries `_scan_files` registers: files whose suffix is `.pdf` in any case. */
  function RootPdfFiles(entries: seq<Entry>): (r: seq<string>)
    ensures forall name :: name in r ==> Lower(Suffix(name)) == ".pdf"
  {
    if entries == [] then []
    else
      var names := RootPdfFiles(entries[..|entries| - 1]);
      var e := entries[|entries| - 1];
      if e.File? && Lower(Suffix(e.name)) == ".pdf" then names + [e.name] else names
  }

  // ---------------------------------------------------------------- registering one file

  /** The shared tail of `_register_file` and `_register_root_file` once no document with
      that name and path exists: take the next sequence number, insert the document (which
      fails when its code is taken), then its qr row unless the identifier exists. */
  function AddNewDocument(
    t: Tables, subcategoryId: nat, category: string, subcategory: string, year: int,
    filename: string, path: string, description: string, baseUrl: string): (r: (Tables, Option<FileInfo>))
    ensures var (t1, sequence) := NextSequence(t, subcategoryId, year);
      var code := DocumentCode(category, subcategory, year, sequence);
      (r.1.None? <==> DocumentCoded(t, code).Some?)
      && (r.1.None? ==> r.0 == t1)
      && (r.1.Some? ==>
            r.1.value == FileInfo(|t.documents| + 1, code, filename, New)
            && r.0.documents == t.documents
               + [Document(subcategoryId, code, filename, path, year, Replace(filename, ".pdf", ""), description)]
            && QrIdentified(r.0, code).Some?)
    ensures r.1.Some? ==> DocumentFiled(r.0, filename, path).Some?
    ensures r.0.categories == t.categories && r.0.subcategories == t.subcategories
    ensures r.0.sequences == NextSequence(t, subcategoryId, year).0.sequences
    ensures Extends(t, r.0)
  {
    var next := NextSequence(t, subcategoryId, year);
    var code := DocumentCode(category, subcategory, year, next.1);
    var stored := StoreDocument(next.0, Document(subcategoryId, code, filename, path, year,
                                                 Replace(filename, ".pdf", ""), description), baseUrl);
    ExtendsTransitive(t, next.0, stored.0);
    (stored.0, if stored.1.Some? then Some(FileInfo(stored.1.value, code, filename, New)) else None)
  }

  /** INSERT INTO documents, then the DOCUMENT qr row of the new row: fails, writing
      nothing, exactly when the code is taken. */
  function StoreDocument(t: Tables, row: Document, baseUrl: string): (r: (Tables, Option<nat>))
    ensures r.1.None? <==> DocumentCoded(t, row.code).Some?
    ensures r.1.None? ==> r.0 == t
    ensures r.1.Some? ==>
      r.1.value == |t.documents| + 1 && r.0.documents == t.documents + [row]
      && QrIdentified(r.0, row.code).Some? && DocumentFiled(r.0, row.filename, row.filePath).Some?
    ensures r.0.categories == t.categories && r.0.subcategories == t.subcategories && r.0.sequences == t.sequences
    ensures Extends(t, r.0)
  {
    var added := AddDocument(t, row);
    if added.1.None? then (t, None)
    else
      var t' := EnsureQr(added.0, DocumentQrRow(added.1.value, row.code, baseUrl));
      assert t'.documents[|t.documents|] == row;
      ExtendsTransitive(t, added.0, t');
      (t', added.1)
  }

  /** `_register_file` for a file below subcategory `sub`, stored under `path` with `year`. */
  function RegisterFile(t: Tables, sub: SubcategoryJob, filename: string, path: string, year: int, baseUrl: string): (r: (Tables, Option<FileInfo>))
    ensures r.1.Some? ==> DocumentFiled(r.0, filename, path).Some?
    ensures r.0.categories == t.categories && r.0.subcategories == t.subcategories
    ensures Extends(t, r.0)
  {
    match DocumentFiled(t, filename, path)
    case Some(id) => (t, Some(FileInfo(id, t.documents[id - 1].code, filename, Existing)))
    case None =>
      AddNewDocument(t, sub.id, sub.categoryName, sub.subcategoryName, year, filename, path,
                     "Document " + filename, baseUrl)
  }

  /** `_register_root_file`: a `.pdf` at the root goes to subcategory DIVERS of category
      GENERAL (created when missing) with year 2025. */
  function RegisterRootFile(t: Tables, filename: string, path: string, baseUrl: string): (r: (Tables, Option<FileInfo>))
    ensures r.1.Some? ==> DocumentFiled(r.0, filename, path).Some?
    ensures Extends(t, r.0)
  {
    match DocumentFiled(t, filename, path)
    case Some(id) => (t, Some(FileInfo(id, t.documents[id - 1].code, filename, Existing)))
    case None =>
      var (t1, categoryId) := GetOrCreateCategory(t, "GENERAL", Some(CategoryDescription("GENERAL")));
      var (t2, subcategoryId) := GetOrCreateSubcategory(t1, categoryId, "DIVERS", Some(SubcategoryDescription("DIVERS")));
      var r := AddNewDocument(t2, subcategoryId, "GENERAL", "DIVERS", 2025, filename, path,
                              "Document racine " + filename, baseUrl);
      ExtendsChain(t, t1, t2, r.0);
      r
  }

  // ---------------------------------------------------------------- the three passes

  /** `_scan_categories` on one root entry: a directory becomes a category (described as
      "Catégorie <name>" when created) with its CATEGORY qr row. */
  function CategoryStep(acc: (Tables, seq<CategoryJob>), e: Entry, baseUrl: string): (r: (Tables, seq<CategoryJob>))
    ensures Extends(acc.0, r.0)
  {
    if e.Dir? then
      var (t2, id) := GetOrCreateCategory(acc.0, e.name, Some(CategoryDescription(e.name)));
      var t3 := EnsureQr(t2, CategoryQrRow(id, e.name, baseUrl));
      ExtendsTransitive(acc.0, t2, t3);
      (t3, acc.1 + [CategoryJob(e.name, id, e.entries)])
    else acc
  }

  /** `_scan_categories`: every directory at the root, in listing order. */
  function CategoryPass(t: Tables, entries: seq<Entry>, baseUrl: string): (r: (Tables, seq<CategoryJob>))
    ensures Extends(t, r.0)
  {
    if entries == [] then (t, [])
    else
      var acc := CategoryPass(t, entries[..|entries| - 1], baseUrl);
      var r := CategoryStep(acc, entries[|entries| - 1], baseUrl);
      ExtendsTransitive(t, acc.0, r.0);
      r
  }

  lemma CategoryPassSnoc(t: Tables, entries: seq<Entry>, k: nat, baseUrl: string)
    requires k < |entries|
    ensures CategoryPass(t, entries[..k + 1], baseUrl) == CategoryStep(CategoryPass(t, entries[..k], baseUrl), entries[k], baseUrl)
  {
    assert entries[..k + 1][..k] == entries[..k];
  }

  /** The entries the subcategory pass visits: each category's entries in turn. */
  function Candidates(jobs: seq<CategoryJob>): seq<Candidate>
  {
    if jobs == [] then [] else Candidates(jobs[..|jobs| - 1]) + Tagged(jobs[|jobs| - 1], jobs[|jobs| - 1].entries)
  }

  lemma CandidatesSnoc(jobs: seq<CategoryJob>, k: nat)
    requires k < |jobs|
    ensures Candidates(jobs[..k + 1]) == Candidates(jobs[..k]) + Tagged(jobs[k], jobs[k].entries)
  {
    assert jobs[..k + 1][..k] == jobs[..k];
  }

  function Tagged(job: CategoryJob, entries: seq<Entry>): (r: seq<Candidate>)
    ensures |r| == |entries| && forall i :: 0 <= i < |r| ==> r[i] == Candidate(job, entries[i])
  {
    seq(|entries|, i requires 0 <= i < |entries| => Candidate(job, entries[i]))
  }

  /** Tagging one more entry adds one candidate at the end. */
  lemma TaggedSnoc(done: seq<Candidate>, job: CategoryJob, entries: seq<Entry>, k: nat)
    requires k < |entries|
    ensures var after := done + Tagged(job, entries[..k + 1]);
      |after| == |done + Tagged(job, entries[..k])| + 1
      && after[..|after| - 1] == done + Tagged(job, entries[..k])
      && after[|after| - 1] == Candidate(job, entries[k])
  {
    var after := done + Tagged(job, entries[..k + 1]);
    assert after[..|after| - 1] == done + Tagged(job, entries[..k]);
  }

  lemma TaggedNone(done: seq<Candidate>, job: CategoryJob, entries: seq<Entry>)
    ensures done + Tagged(job, entries[..0]) == done
  {
  }

  /** `_scan_subcategories` on one entry of a category directory: a directory becomes a
      subcategory of it (described as "Sous-catégorie <name>" when created) with its
      SUBCATEGORY qr row. */
  function SubcategoryStep(acc: (Tables, seq<SubcategoryJob>), c: Candidate, baseUrl: string): (r: (Tables, seq<SubcategoryJob>))
    ensures Extends(acc.0, r.0)
  {
    if c.entry.Dir? then
      var (t2, id) := GetOrCreateSubcategory(acc.0, c.category.id, c.entry.name, Some(SubcategoryDescription(c.entry.name)));
      var t3 := EnsureQr(t2, SubcategoryQrRow(id, c.category.name, c.entry.name, baseUrl));
      ExtendsTransitive(acc.0, t2, t3);
      (t3, acc.1 + [SubcategoryJob(c.category.name, c.entry.name, id, c.category.id, c.entry.entries)])
    else acc
  }

  /** `_scan_subcategories`: the candidates in turn. */
  function SubcategoryPass(t: Tables, candidates: seq<Candidate>, baseUrl: string): (r: (Tables, seq<SubcategoryJob>))
    ensures Extends(t, r.0)
  {
    if candidates == [] then (t, [])
    else
      var acc := SubcategoryPass(t, candidates[..|candidates| - 1], baseUrl);
      var r := SubcategoryStep(acc, candidates[|candidates| - 1], baseUrl);
      ExtendsTransitive(t, acc.0, r.0);
      r
  }

  lemma SubcategoryPassExtend(t: Tables, before: seq<Candidate>, after: seq<Candidate>, baseUrl: string)
    requires |after| == |before| + 1 && after[..|before|] == before
    ensures SubcategoryPass(t, after, baseUrl) == SubcategoryStep(SubcategoryPass(t, before, baseUrl), after[|before|], baseUrl)
  {
  }

  /** The files one subcategory contributes, in `rglob` order. */
  function SubcategoryFiles(sub: SubcategoryJob): (r: seq<FileJob>)
    ensures forall j :: j in r ==> j.InSubcategory? && j.sub == sub
  {
    var found := PdfFilesIn(sub.entries, []);
    seq(|found|, i requires 0 <= i < |found| => InSubcategory(sub, found[i].dirs, found[i].name))
  }

  /** The files `_scan_files` visits: those of every subcategory in turn, then the root ones. */
  function FileJobs(subs: seq<SubcategoryJob>): seq<FileJob>
  {
    if subs == [] then [] else FileJobs(subs[..|subs| - 1]) + SubcategoryFiles(subs[|subs| - 1])
  }

  lemma SubcategoryFileAt(sub: SubcategoryJob, k: nat)
    requires k < |PdfFilesIn(sub.entries, [])|
    ensures var found := PdfFilesIn(sub.entries, []);
      |SubcategoryFiles(sub)| == |found| && SubcategoryFiles(sub)[k] == InSubcategory(sub, found[k].dirs, found[k].name)
  {
  }

  lemma FileJobsSnoc(subs: seq<SubcategoryJob>, k: nat)
    requires k < |subs|
    ensures FileJobs(subs[..k + 1]) == FileJobs(subs[..k]) + SubcategoryFiles(subs[k])
  {
    assert subs[..k + 1][..k] == subs[..k];
  }

  function RootFileJobs(names: seq<string>): (r: seq<FileJob>)
    ensures |r| == |names| && forall i :: 0 <= i < |r| ==> r[i] == AtRoot(names[i])
  {
    seq(|names|, i requires 0 <= i < |names| => AtRoot(names[i]))
  }

  /** A root `.pdf` file adds one job at the end of the file list. */
  lemma RootJobAdded(visited: seq<FileJob>, entries: seq<Entry>, k: nat)
    requires k < |entries| && entries[k].File? && Lower(Suffix(entries[k].name)) == ".pdf"
    ensures visited + RootFileJobs(RootPdfFiles(entries[..k + 1]))
      == visited + RootFileJobs(RootPdfFiles(entries[..k])) + [AtRoot(entries[k].name)]
  {
    assert entries[..k + 1][..k] == entries[..k];
  }

  lemma RootJobsNone(visited: seq<FileJob>, entries: seq<Entry>)
    ensures visited + RootFileJobs(RootPdfFiles(entries[..0])) == visited
  {
    assert entries[..0] == [];
  }

  /** Any other root entry adds no job. */
  lemma RootJobSkipped(visited: seq<FileJob>, entries: seq<Entry>, k: nat)
    requires k < |entries| && !(entries[k].File? && Lower(Suffix(entries[k].name)) == ".pdf")
    ensures visited + RootFileJobs(RootPdfFiles(entries[..k + 1])) == visited + RootFileJobs(RootPdfFiles(entries[..k]))
  {
    assert entries[..k + 1][..k] == entries[..k];
  }

  /** The path parts of a file job below the archives folder `archivesPath`. */
  function JobParts(archivesPath: seq<string>, job: FileJob): seq<string>
  {
    match job
    case InSubcategory(sub, dirs, filename) =>
      archivesPath + [sub.categoryName, sub.subcategoryName] + dirs + [filename]
    case AtRoot(filename) => archivesPath + [filename]
  }

  /** Registers one file job; the year of a subcategory file comes from its path. */
  function RegisterJob(t: Tables, job: FileJob, archivesPath: seq<string>, baseUrl: string): (r: (Tables, Option<FileInfo>))
    ensures r.1.Some? ==> DocumentFiled(r.0, job.filename, PathText(JobParts(archivesPath, job))).Some?
    ensures DocumentFiled(t, job.filename, PathText(JobParts(archivesPath, job))).Some? ==>
      r.0 == t && r.1.Some? && r.1.value.status == Existing
    ensures Extends(t, r.0)
  {
    var parts := JobParts(archivesPath, job);
    match job
    case InSubcategory(sub, dirs, filename) =>
      RegisterFile(t, sub, filename, PathText(parts), ExtractYear(parts), baseUrl)
    case AtRoot(filename) =>
      RegisterRootFile(t, filename, PathText(parts), baseUrl)
  }

  /** One step of the file pass: register `job` and keep its info when it did not fail. */
  function FileStep(acc: (Tables, seq<FileInfo>), job: FileJob, archivesPath: seq<string>, baseUrl: string): (r: (Tables, seq<FileInfo>))
    ensures |r.1| <= |acc.1| + 1
  {
    var registered := RegisterJob(acc.0, job, archivesPath, baseUrl);
    (registered.0, Reported(acc.1, registered.1))
  }

  /** The infos after one registration: its info is appended unless it failed. */
  function Reported(infos: seq<FileInfo>, info: Option<FileInfo>): (r: seq<FileInfo>)
    ensures |r| <= |infos| + 1
  {
    if info.Some? then infos + [info.value] else infos
  }

  lemma ReportedAfter(before: seq<FileInfo>, infos: seq<FileInfo>, info: Option<FileInfo>)
    ensures Reported(before + infos, info) == before + Reported(infos, info)
  {
    if info.Some? {
      assert before + infos + [info.value] == before + (infos + [info.value]);
    }
  }

  lemma FileStepAtRoot(acc: (Tables, seq<FileInfo>), filename: string, archivesPath: seq<string>, baseUrl: string)
    ensures var r := RegisterRootFile(acc.0, filename, PathText(archivesPath + [filename]), baseUrl);
      FileStep(acc, AtRoot(filename), archivesPath, baseUrl) == (r.0, if r.1.Some? then acc.1 + [r.1.value] else acc.1)
  {
  }

  /** A root `.pdf` file extends the pass by its own registration. */
  lemma RootFileStep(t0: Tables, jobs: seq<FileJob>, name: string, acc: (Tables, seq<FileInfo>),
                     archivesPath: seq<string>, baseUrl: string)
    requires acc == FilePass(t0, jobs, archivesPath, baseUrl)
    ensures var r := RegisterRootFile(acc.0, name, PathText(archivesPath + [name]), baseUrl);
      FilePass(t0, jobs + [AtRoot(name)], archivesPath, baseUrl)
        == (r.0, if r.1.Some? then acc.1 + [r.1.value] else acc.1)
  {
    FilePassExtend(t0, jobs, jobs + [AtRoot(name)], archivesPath, baseUrl);
    FileStepAtRoot(acc, name, archivesPath, baseUrl);
  }

  lemma FileStepInSubcategory(acc: (Tables, seq<FileInfo>), sub: SubcategoryJob, dirs: seq<string>, filename: string,
                              archivesPath: seq<string>, baseUrl: string)
    ensures var parts := archivesPath + [sub.categoryName, sub.subcategoryName] + dirs + [filename];
      var r := RegisterFile(acc.0, sub, filename, PathText(parts), ExtractYear(parts), baseUrl);
      FileStep(acc, InSubcategory(sub, dirs, filename), archivesPath, baseUrl)
        == (r.0, if r.1.Some? then acc.1 + [r.1.value] else acc.1)
  {
  }

  /** The file pass over `jobs`: the file infos of the registrations that did not fail. */
  function FilePass(t: Tables, jobs: seq<FileJob>, archivesPath: seq<string>, baseUrl: string): (r: (Tables, seq<FileInfo>))
    ensures |r.1| <= |jobs|
  {
    if jobs == [] then (t, [])
    else FileStep(FilePass(t, jobs[..|jobs| - 1], archivesPath, baseUrl), jobs[|jobs| - 1], archivesPath, baseUrl)
  }

  /** The file pass only adds rows and raises counters, and keeps the catalog consistent. */
  lemma {:induction false} FilePassGrows(t: Tables, jobs: seq<FileJob>, archivesPath: seq<string>, baseUrl: string)
    ensures var r := FilePass(t, jobs, archivesPath, baseUrl);
      Extends(t, r.0)
  {
    if jobs != [] {
      var acc := FilePass(t, jobs[..|jobs| - 1], archivesPath, baseUrl);
      FilePassGrows(t, jobs[..|jobs| - 1], archivesPath, baseUrl);
      var _ := RegisterJob(acc.0, jobs[|jobs| - 1], archivesPath, baseUrl);
      ExtendsTransitive(t, acc.0, FileStep(acc, jobs[|jobs| - 1], archivesPath, baseUrl).0);
    }
  }

  lemma FilePassLast(t: Tables, jobs: seq<FileJob>, archivesPath: seq<string>, baseUrl: string)
    requires |jobs| > 0
    ensures FilePass(t, jobs, archivesPath, baseUrl)
      == FileStep(FilePass(t, jobs[..|jobs| - 1], archivesPath, baseUrl), jobs[|jobs| - 1], archivesPath, baseUrl)
  {
  }

  lemma FilePassSnoc(t: Tables, jobs: seq<FileJob>, k: nat, archivesPath: seq<string>, baseUrl: string)
    requires k < |jobs|
    ensures FilePass(t, jobs[..k + 1], archivesPath, baseUrl)
      == FileStep(FilePass(t, jobs[..k], archivesPath, baseUrl), jobs[k], archivesPath, baseUrl)
  {
    assert jobs[..k + 1][..k] == jobs[..k];
    FilePassLast(t, jobs[..k + 1], archivesPath, baseUrl);
  }

  lemma FilePassExtend(t: Tables, before: seq<FileJob>, after: seq<FileJob>, archivesPath: seq<string>, baseUrl: string)
    requires |after| == |before| + 1 && after[..|before|] == before
    ensures FilePass(t, after, archivesPath, baseUrl)
      == FileStep(FilePass(t, before, archivesPath, baseUrl), after[|before|], archivesPath, baseUrl)
  {
    FilePassLast(t, after, archivesPath, baseUrl);
  }

  /** A step's tables do not depend on the infos gathered so far, which it only extends. */
  lemma FileStepKeepsInfos(t: Tables, before: seq<FileInfo>, infos: seq<FileInfo>, job: FileJob, archivesPath: seq<string>, baseUrl: string)
    ensures var r := FileStep((t, infos), job, archivesPath, baseUrl);
      FileStep((t, before + infos), job, archivesPath, baseUrl) == (r.0, before + r.1)
  {
    ReportedAfter(before, infos, RegisterJob(t, job, archivesPath, baseUrl).1);
  }

  /** The file pass over two lists in turn is the pass over their concatenation. */
  lemma {:induction false} FilePassAppend(t: Tables, a: seq<FileJob>, b: seq<FileJob>, archivesPath: seq<string>, baseUrl: string)
    ensures var first := FilePass(t, a, archivesPath, baseUrl);
      var second := FilePass(first.0, b, archivesPath, baseUrl);
      FilePass(t, a + b, archivesPath, baseUrl) == (second.0, first.1 + second.1)
  {
    var first := FilePass(t, a, archivesPath, baseUrl);
    if b == [] {
      assert a + b == a;
      assert first.1 + [] == first.1;
    } else {
      var front := b[..|b| - 1];
      FrontLast(b);
      FilePassAppend(t, a, front, archivesPath, baseUrl);
      FilePassAppendLast(t, a, front, b[|b| - 1], archivesPath, baseUrl);
    }
  }

  /** The inductive step of `FilePassAppend`: one more job after `front`. */
  lemma FilePassAppendLast(t: Tables, a: seq<FileJob>, front: seq<FileJob>, job: FileJob, archivesPath: seq<string>, baseUrl: string)
    requires var first := FilePass(t, a, archivesPath, baseUrl);
      var middle := FilePass(first.0, front, archivesPath, baseUrl);
      FilePass(t, a + front, archivesPath, baseUrl) == (middle.0, first.1 + middle.1)
    ensures var first := FilePass(t, a, archivesPath, baseUrl);
      var second := FilePass(first.0, front + [job], archivesPath, baseUrl);
      FilePass(t, a + (front + [job]), archivesPath, baseUrl) == (second.0, first.1 + second.1)
  {
    var first := FilePass(t, a, archivesPath, baseUrl);
    var middle := FilePass(first.0, front, archivesPath, baseUrl);
    AppendSnoc(a, front, job);
    FilePassPush(t, a + front, job, archivesPath, baseUrl);
    FilePassPush(first.0, front, job, archivesPath, baseUrl);
    FileStepKeepsInfos(middle.0, first.1, middle.1, job, archivesPath, baseUrl);
  }

  lemma FilePassPush(t: Tables, jobs: seq<FileJob>, job: FileJob, archivesPath: seq<string>, baseUrl: string)
    ensures FilePass(t, jobs + [job], archivesPath, baseUrl)
      == FileStep(FilePass(t, jobs, archivesPath, baseUrl), job, archivesPath, baseUrl)
  {
    assert (jobs + [job])[..|jobs|] == jobs;
  }

  function CountStatus(infos: seq<FileInfo>, status: Status): (n: nat)
    ensures n <= |infos|
    ensures n == |infos| <==> forall i :: 0 <= i < |infos| ==> infos[i].status == status
  {
    if infos == [] then 0
    else CountStatus(infos[..|infos| - 1], status) + (if infos[|infos| - 1].status == status then 1 else 0)
  }

  /** `scan_and_register_all` over the archives folder `archivesPath`, whose entries are
      `root` (None when the folder does not exist: nothing is written and the scan reports
      failure). */
  function Scan(t: Tables, root: Option<seq<Entry>>, archivesPath: seq<string>, baseUrl: string): (r: (Tables, Option<Summary>))
    ensures root.None? ==> r == (t, None)
    ensures root.Some? ==> r.1.Some?
    ensures r.1.Some? ==> r.1.value.newFiles + r.1.value.existingFiles == r.1.value.processed
    ensures Extends(t, r.0)
  {
    match root
    case None => (t, None)
    case Some(entries) =>
      var (t1, categories) := CategoryPass(t, entries, baseUrl);
      var (t2, subcategories) := SubcategoryPass(t1, Candidates(categories), baseUrl);
      var jobs := FileJobs(subcategories) + RootFileJobs(RootPdfFiles(entries));
      var (t3, files) := FilePass(t2, jobs, archivesPath, baseUrl);
      FilePassGrows(t2, jobs, archivesPath, baseUrl);
      ExtendsChain(t, t1, t2, t3);
      StatusCountsAddUp(files);
      (t3, Some(Summary(|categories|, |subcategories|, CountStatus(files, New), CountStatus(files, Existing), |files|)))
  }

  /** Every reported file is either new or existing. */
  lemma {:induction false} StatusCountsAddUp(infos: seq<FileInfo>)
    ensures CountStatus(infos, New) + CountStatus(infos, Existing) == |infos|
  {
    if infos != [] {
      StatusCountsAddUp(infos[..|infos| - 1]);
    }
  }
}
