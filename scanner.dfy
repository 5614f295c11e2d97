/** archive_scanner.py: the `ArchiveScanner` class. Its passes build the category and
    subcategory lists and the list of file infos in loops, writing to the catalog as they go;
    each method ends in the state, and with the result, that the `Reconciliation` function
    of the same name computes from the catalog before the call. The directory listing is an
    input value. */
module Scanner {
  import opened Wrappers
  import opened Seqs
  import opened Text
  import opened Schema
  import opened Store
  import opened Allocation
  import opened Reconciliation
  import Utils

  class ArchiveScanner {
    const db: Catalog
    /** The archives folder as path parts (ARCHIVES_FOLDER, "Archives" by default). */
    const archivesPath: seq<string>
    /** BASE_URL, the prefix of every qr payload. */
    const baseUrl: string

    constructor (db: Catalog, archivesPath: seq<string>, baseUrl: string)
      ensures this.db == db && this.archivesPath == archivesPath && this.baseUrl == baseUrl
    {
      this.db := db;
      this.archivesPath := archivesPath;
      this.baseUrl := baseUrl;
    }

    /** `scan_and_register_all`; `root` lists the archives folder, None when it is missing. */
    method ScanAndRegisterAll(root: Option<seq<Entry>>) returns (summary: Option<Summary>)
      modifies db
      ensures (db.Snapshot(), summary) == Scan(old(db.Snapshot()), root, archivesPath, baseUrl)
      ensures old(db.Valid()) ==> db.Valid()
    {
      if root.None? {
        return None;
      }
      var entries := root.value;
      var categories := ScanCategories(entries);
      var subcategories := ScanSubcategories(categories);
      var files := ScanFiles(subcategories, entries);
      StatusCountsAddUp(files);
      summary := Some(Summary(|categories|, |subcategories|, CountStatus(files, New), CountStatus(files, Existing), |files|));
    }

    /** `_scan_categories` */
    method ScanCategories(entries: seq<Entry>) returns (categories: seq<CategoryJob>)
      modifies db
      ensures (db.Snapshot(), categories) == CategoryPass(old(db.Snapshot()), entries, baseUrl)
      ensures old(db.Valid()) ==> db.Valid()
    {
      categories := [];
      var i := 0;
      while i < |entries|
        invariant 0 <= i <= |entries|
        invariant (db.Snapshot(), categories) == CategoryPass(old(db.Snapshot()), entries[..i], baseUrl)
        invariant old(db.Valid()) ==> db.Valid()
      {
        CategoryPassSnoc(old(db.Snapshot()), entries, i, baseUrl);
        var item := entries[i];
        if item.Dir? {
          var id := GetOrCreateCategory(item.name);
          categories := categories + [CategoryJob(item.name, id, item.entries)];
          CreateCategoryQr(id, item.name);
        }
        i := i + 1;
      }
      TakeAll(entries);
    }

    /** `_scan_subcategories` */
    method ScanSubcategories(categories: seq<CategoryJob>) returns (subcategories: seq<SubcategoryJob>)
      modifies db
      ensures (db.Snapshot(), subcategories) == SubcategoryPass(old(db.Snapshot()), Candidates(categories), baseUrl)
      ensures old(db.Valid()) ==> db.Valid()
    {
      subcategories := [];
      var i := 0;
      while i < |categories|
        invariant 0 <= i <= |categories|
        invariant (db.Snapshot(), subcategories) == SubcategoryPass(old(db.Snapshot()), Candidates(categories[..i]), baseUrl)
        invariant old(db.Valid()) ==> db.Valid()
      {
        CandidatesSnoc(categories, i);
        subcategories := ScanCategoryDirectory(categories[i], old(db.Snapshot()), Candidates(categories[..i]), subcategories);
        i := i + 1;
      }
      TakeAll(categories);
    }

    /** The inner loop of `_scan_subcategories`: the entries of one category directory, after
        the candidates `done` that the pass from `t0` has visited so far. */
    method ScanCategoryDirectory(category: CategoryJob, ghost t0: Tables, ghost done: seq<Candidate>, found: seq<SubcategoryJob>)
      returns (subcategories: seq<SubcategoryJob>)
      requires (db.Snapshot(), found) == SubcategoryPass(t0, done, baseUrl)
      modifies db
      ensures (db.Snapshot(), subcategories) == SubcategoryPass(t0, done + Tagged(category, category.entries), baseUrl)
      ensures old(db.Valid()) ==> db.Valid()
    {
      subcategories := found;
      TaggedNone(done, category, category.entries);
      var j := 0;
      while j < |category.entries|
        invariant 0 <= j <= |category.entries|
        invariant (db.Snapshot(), subcategories) == SubcategoryPass(t0, done + Tagged(category, category.entries[..j]), baseUrl)
        invariant old(db.Valid()) ==> db.Valid()
      {
        TaggedSnoc(done, category, category.entries, j);
        SubcategoryPassExtend(t0, done + Tagged(category, category.entries[..j]),
                              done + Tagged(category, category.entries[..j + 1]), baseUrl);
        var item := category.entries[j];
        if item.Dir? {
          var id := GetOrCreateSubcategory(category.id, item.name);
          subcategories := subcategories + [SubcategoryJob(category.name, item.name, id, category.id, item.entries)];
          CreateSubcategoryQr(id, category.name, item.name);
        }
        j := j + 1;
      }
      TakeAll(category.entries);
    }

    /** `_scan_files`: the files below each subcategory, then the `.pdf` files at the root. */
    method ScanFiles(subcategories: seq<SubcategoryJob>, entries: seq<Entry>) returns (files: seq<FileInfo>)
      modifies db
      ensures (db.Snapshot(), files) == FilePass(old(db.Snapshot()),
        FileJobs(subcategories) + RootFileJobs(RootPdfFiles(entries)), archivesPath, baseUrl)
      ensures old(db.Valid()) ==> db.Valid()
    {
      files := [];
      var i := 0;
      while i < |subcategories|
        invariant 0 <= i <= |subcategories|
        invariant (db.Snapshot(), files) == FilePass(old(db.Snapshot()), FileJobs(subcategories[..i]), archivesPath, baseUrl)
        invariant old(db.Valid()) ==> db.Valid()
      {
        var found := ScanFilesInDirectory(subcategories[i]);
        FilePassAppend(old(db.Snapshot()), FileJobs(subcategories[..i]), SubcategoryFiles(subcategories[i]), archivesPath, baseUrl);
        FileJobsSnoc(subcategories, i);
        files := files + found;
        i := i + 1;
      }
      TakeAll(subcategories);
      files := ScanRootFiles(entries, old(db.Snapshot()), FileJobs(subcategories), files);
    }

    /** The root loop of `_scan_files`: registers the `.pdf` files among `entries` after the
        jobs `visited` that the pass from `t0` has done so far. */
    method ScanRootFiles(entries: seq<Entry>, ghost t0: Tables, ghost visited: seq<FileJob>, done: seq<FileInfo>)
      returns (files: seq<FileInfo>)
      requires (db.Snapshot(), done) == FilePass(t0, visited, archivesPath, baseUrl)
      modifies db
      ensures (db.Snapshot(), files) == FilePass(t0, visited + RootFileJobs(RootPdfFiles(entries)), archivesPath, baseUrl)
      ensures old(db.Valid()) ==> db.Valid()
    {
      files := done;
      RootJobsNone(visited, entries);
      ghost var jobs := visited;
      var k := 0;
      while k < |entries|
        invariant 0 <= k <= |entries|
        invariant jobs == visited + RootFileJobs(RootPdfFiles(entries[..k]))
        invariant (db.Snapshot(), files) == FilePass(t0, jobs, archivesPath, baseUrl)
        invariant old(db.Valid()) ==> db.Valid()
      {
        var item := entries[k];
        if item.File? && Lower(Suffix(item.name)) == ".pdf" {
          RootJobAdded(visited, entries, k);
          RootFileStep(t0, jobs, item.name, (db.Snapshot(), files), archivesPath, baseUrl);
          var info := RegisterRootFile(item.name, PathText(archivesPath + [item.name]));
          if info.Some? {
            files := files + [info.value];
          }
          jobs := jobs + [AtRoot(item.name)];
        } else {
          RootJobSkipped(visited, entries, k);
        }
        k := k + 1;
      }
      TakeAll(entries);
    }

    /** `_scan_files_in_directory`: the `rglob('*.pdf')` files below one subcategory, each
      registered with the year its path names. */
    method ScanFilesInDirectory(sub: SubcategoryJob) returns (files: seq<FileInfo>)
      modifies db
      ensures (db.Snapshot(), files) == FilePass(old(db.Snapshot()), SubcategoryFiles(sub), archivesPath, baseUrl)
      ensures old(db.Valid()) ==> db.Valid()
    {
      var found := PdfFilesIn(sub.entries, []);
      ghost var jobs := SubcategoryFiles(sub);
      files := [];
      var k := 0;
      while k < |found|
        invariant 0 <= k <= |found| && |jobs| == |found|
        invariant (db.Snapshot(), files) == FilePass(old(db.Snapshot()), jobs[..k], archivesPath, baseUrl)
        invariant old(db.Valid()) ==> db.Valid()
      {
        SubcategoryFileAt(sub, k);
        FilePassSnoc(old(db.Snapshot()), jobs, k, archivesPath, baseUrl);
        var parts := archivesPath + [sub.categoryName, sub.subcategoryName] + found[k].dirs + [found[k].name];
        FileStepInSubcategory((db.Snapshot(), files), sub, found[k].dirs, found[k].name, archivesPath, baseUrl);
        var info := RegisterFile(sub, found[k].name, PathText(parts), ExtractYear(parts));
        if info.Some? {
          files := files + [info.value];
        }
        k := k + 1;
      }
      TakeAll(jobs);
    }

    /** `_register_file` */
    method RegisterFile(sub: SubcategoryJob, filename: string, path: string, year: int) returns (info: Option<FileInfo>)
      modifies db
      ensures (db.Snapshot(), info) == Reconciliation.RegisterFile(old(db.Snapshot()), sub, filename, path, year, baseUrl)
      ensures old(db.Valid()) ==> db.Valid()
    {
      var existing := DocumentFiled(db.Snapshot(), filename, path);
      if existing.Some? {
        return Some(FileInfo(existing.value, db.documents[existing.value - 1].code, filename, Existing));
      }
      info := RecordNewFile(sub.id, sub.categoryName, sub.subcategoryName, year, filename, path, "Document " + filename);
    }

    /** `_register_root_file` */
    method RegisterRootFile(filename: string, path: string) returns (info: Option<FileInfo>)
      modifies db
      ensures (db.Snapshot(), info) == Reconciliation.RegisterRootFile(old(db.Snapshot()), filename, path, baseUrl)
      ensures old(db.Valid()) ==> db.Valid()
    {
      var existing := DocumentFiled(db.Snapshot(), filename, path);
      if existing.Some? {
        return Some(FileInfo(existing.value, db.documents[existing.value - 1].code, filename, Existing));
      }
      var categoryId := GetOrCreateCategory("GENERAL");
      var subcategoryId := GetOrCreateSubcategory(categoryId, "DIVERS");
      info := RecordNewFile(subcategoryId, "GENERAL", "DIVERS", 2025, filename, path, "Document racine " + filename);
    }

    /** The steps both register methods take for a file not yet recorded. */
    method RecordNewFile(
      subcategoryId: nat, category: string, subcategory: string, year: int,
      filename: string, path: string, description: string) returns (info: Option<FileInfo>)
      modifies db
      ensures (db.Snapshot(), info) == AddNewDocument(old(db.Snapshot()), subcategoryId, category, subcategory,
                                                      year, filename, path, description, baseUrl)
      ensures old(db.Valid()) ==> db.Valid()
    {
      var sequence := GetNextSequence(subcategoryId, year);
      var code := DocumentCode(category, subcategory, year, sequence);
      var documentId := db.InsertDocument(Document(subcategoryId, code, filename, path, year,
                                                   Replace(filename, ".pdf", ""), description));
      if documentId.None? {
        return None;
      }
      CreateDocumentQr(documentId.value, code);
      info := Some(FileInfo(documentId.value, code, filename, New));
    }

    /** `_create_category_qr` */
    method CreateCategoryQr(categoryId: nat, category: string)
      modifies db
      ensures db.Snapshot() == EnsureQr(old(db.Snapshot()), CategoryQrRow(categoryId, category, baseUrl))
      ensures old(db.Valid()) ==> db.Valid()
    {
      InsertQrUnlessPresent(CategoryQrRow(categoryId, category, baseUrl));
    }

    /** `_create_subcategory_qr` */
    method CreateSubcategoryQr(subcategoryId: nat, category: string, subcategory: string)
      modifies db
      ensures db.Snapshot() == EnsureQr(old(db.Snapshot()), SubcategoryQrRow(subcategoryId, category, subcategory, baseUrl))
      ensures old(db.Valid()) ==> db.Valid()
    {
      InsertQrUnlessPresent(SubcategoryQrRow(subcategoryId, category, subcategory, baseUrl));
    }

    /** `_create_document_qr` */
    method CreateDocumentQr(documentId: nat, code: string)
      modifies db
      ensures db.Snapshot() == EnsureQr(old(db.Snapshot()), DocumentQrRow(documentId, code, baseUrl))
      ensures old(db.Valid()) ==> db.Valid()
    {
      InsertQrUnlessPresent(DocumentQrRow(documentId, code, baseUrl));
    }

    /** Look the identifier up first; insert only when it is absent. */
    method InsertQrUnlessPresent(row: QrCode)
      modifies db
      ensures db.Snapshot() == EnsureQr(old(db.Snapshot()), row)
      ensures old(db.Valid()) ==> db.Valid()
    {
      var existing := QrIdentified(db.Snapshot(), row.identifier);
      if existing.Some? {
        return;
      }
      var _ := db.InsertQr(row);
    }

    /** `_get_or_create_category`: new categories are described as "Catégorie <name>". */
    method GetOrCreateCategory(name: string) returns (id: nat)
      modifies db
      ensures (db.Snapshot(), id) == Allocation.GetOrCreateCategory(old(db.Snapshot()), name, Some(CategoryDescription(name)))
      ensures old(db.Valid()) ==> db.Valid()
    {
      id := Utils.FindOrInsertCategory(db, name, Some(CategoryDescription(name)));
    }

    /** `_get_or_create_subcategory`: new ones are described as "Sous-catégorie <name>". */
    method GetOrCreateSubcategory(categoryId: nat, name: string) returns (id: nat)
      modifies db
      ensures (db.Snapshot(), id)
        == Allocation.GetOrCreateSubcategory(old(db.Snapshot()), categoryId, name, Some(SubcategoryDescription(name)))
      ensures old(db.Valid()) ==> db.Valid()
    {
      id := Utils.FindOrInsertSubcategory(db, categoryId, name, Some(SubcategoryDescription(name)));
    }

    /** `_get_next_sequence` */
    method GetNextSequence(subcategoryId: nat, year: int) returns (n: int)
      modifies db
      ensures (db.Snapshot(), n) == NextSequence(old(db.Snapshot()), subcategoryId, year)
      ensures old(db.Valid()) ==> db.Valid()
    {
      n := Utils.GetNextSequence(db, subcategoryId, year);
    }
  }
}
