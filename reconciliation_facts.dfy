/** Properties of archive reconciliation: what registering one file does, and that a second
    scan of an unchanged tree writes nothing and reports every file as existing. */
module ReconciliationFacts {
  import opened Wrappers
  import opened Seqs
  import opened Text
  import opened Schema
  import opened Allocation
  import opened Reconciliation

  // ---------------------------------------------------------------- one file

  /** A file already recorded under the same name and path is reported as existing with that
      row's id and code; nothing is written and no sequence number is consumed. */
  lemma RegisterFileExisting(t: Tables, sub: SubcategoryJob, filename: string, path: string, year: int, baseUrl: string)
    requires DocumentFiled(t, filename, path).Some?
    ensures var id := DocumentFiled(t, filename, path).value;
      RegisterFile(t, sub, filename, path, year, baseUrl)
        == (t, Some(FileInfo(id, t.documents[id - 1].code, filename, Existing)))
  {
  }

  /** A file not yet recorded takes the next number of its subcategory and year: on success it
      is reported new with code "<category>-<subcategory>-<year>-<number, 4 digits>" and is
      the one document row added, with its DOCUMENT qr identifier present; it fails only when
      that code is taken, and then the number stays consumed. */
  lemma RegisterFileNew(t: Tables, sub: SubcategoryJob, filename: string, path: string, year: int, baseUrl: string)
    requires DocumentFiled(t, filename, path).None?
    ensures var (t', info) := RegisterFile(t, sub, filename, path, year, baseUrl);
      var sequence := CounterValue(t, sub.id, year) + 1;
      var code := DocumentCode(sub.categoryName, sub.subcategoryName, year, sequence);
      CounterValue(t', sub.id, year) == sequence
      && (info.None? <==> DocumentCoded(t, code).Some?)
      && (info.Some? ==>
            info.value == FileInfo(|t.documents| + 1, code, filename, New)
            && t'.documents == t.documents
               + [Document(sub.id, code, filename, path, year, Replace(filename, ".pdf", ""), "Document " + filename)]
            && QrIdentified(t', code).Some?)
  {
    var (t1, n) := NextSequence(t, sub.id, year);
    var (t', info) := RegisterFile(t, sub, filename, path, year, baseUrl);
    assert CounterValue(t', sub.id, year) == CounterValue(t1, sub.id, year) by {
      if info.Some? {
        assert t'.sequences == t1.sequences;
      }
    }
  }

  /** A new root file is filed under subcategory DIVERS of category GENERAL with year 2025, so
      its code is "GENERAL-DIVERS-2025-<number>". */
  lemma RegisterRootFileNew(t: Tables, filename: string, path: string, baseUrl: string)
    requires DocumentFiled(t, filename, path).None?
    requires RegisterRootFile(t, filename, path, baseUrl).1.Some?
    ensures var (t', info) := RegisterRootFile(t, filename, path, baseUrl);
      var general := CategoryNamed(t', "GENERAL");
      general.Some? && SubcategoryNamed(t', general.value, "DIVERS").Some?
      && var divers := SubcategoryNamed(t', general.value, "DIVERS").value;
      var row := t'.documents[|t'.documents| - 1];
      info.value.status == New && |t'.documents| == |t.documents| + 1
      && row.subcategoryId == divers && row.year == 2025 && row.filePath == path
      && row.code == info.value.documentCode
      && row.code == DocumentCode("GENERAL", "DIVERS", 2025, CounterValue(t', divers, 2025))
      && StartsWith(row.code, "GENERAL-DIVERS-2025-")
  {
    var (t1, categoryId) := GetOrCreateCategory(t, "GENERAL", Some(CategoryDescription("GENERAL")));
    var (t2, subcategoryId) := GetOrCreateSubcategory(t1, categoryId, "DIVERS", Some(SubcategoryDescription("DIVERS")));
    var n := CounterValue(t2, subcategoryId, 2025) + 1;
    var (t', info) := AddNewDocument(t2, subcategoryId, "GENERAL", "DIVERS", 2025, filename, path,
                                     "Document racine " + filename, baseUrl);
    assert (t', info) == RegisterRootFile(t, filename, path, baseUrl);
    assert t2.documents == t.documents;
    assert CategoryNamed(t', "GENERAL") == Some(categoryId) by {
      assert t'.categories == t1.categories;
    }
    assert SubcategoryNamed(t', categoryId, "DIVERS") == Some(subcategoryId) by {
      assert t'.subcategories == t2.subcategories;
    }
    assert CounterValue(t', subcategoryId, 2025) == n by {
      assert t'.sequences == NextSequence(t2, subcategoryId, 2025).0.sequences;
    }
    GeneralCode(n);
  }

  // ---------------------------------------------------------------- settled catalogs

  function IdOf(found: Option<nat>): nat
  {
    if found.Some? then found.value else 0
  }

  /** Every category directory among `entries` has its category row and its CATEGORY qr row. */
  ghost predicate CategoriesSettled(t: Tables, entries: seq<Entry>)
  {
    forall i :: 0 <= i < |entries| && entries[i].Dir? ==>
      CategoryNamed(t, entries[i].name).Some? && QrIdentified(t, CategoryIdentifier(entries[i].name)).Some?
  }

  /** The category jobs for `entries` as the catalog `t` records them. */
  function CategoryJobsOf(t: Tables, entries: seq<Entry>): seq<CategoryJob>
  {
    if entries == [] then []
    else
      var jobs := CategoryJobsOf(t, entries[..|entries| - 1]);
      var e := entries[|entries| - 1];
      if e.Dir? then jobs + [CategoryJob(e.name, IdOf(CategoryNamed(t, e.name)), e.entries)] else jobs
  }

  lemma {:induction false} CategoriesSettledPersist(t: Tables, t': Tables, entries: seq<Entry>)
    requires Extends(t, t') && CategoriesSettled(t, entries)
    ensures CategoriesSettled(t', entries) && CategoryJobsOf(t', entries) == CategoryJobsOf(t, entries)
  {
    forall i | 0 <= i < |entries| && entries[i].Dir?
      ensures CategoryNamed(t', entries[i].name).Some? && QrIdentified(t', CategoryIdentifier(entries[i].name)).Some?
    {
      CategoryPersists(t, t', entries[i].name);
      QrPersists(t, t', CategoryIdentifier(entries[i].name));
    }
    if entries != [] {
      var e := entries[|entries| - 1];
      CategoriesSettledPersist(t, t', entries[..|entries| - 1]);
      if e.Dir? {
        CategoryPersists(t, t', e.name);
      }
    }
  }

  /** One step of the category pass keeps the visited entries settled. */
  lemma CategoryStepSettles(acc: (Tables, seq<CategoryJob>), prefix: seq<Entry>, e: Entry, baseUrl: string)
    requires CategoriesSettled(acc.0, prefix) && acc.1 == CategoryJobsOf(acc.0, prefix)
    ensures CategoriesSettled(CategoryStep(acc, e, baseUrl).0, prefix + [e])
    ensures CategoryStep(acc, e, baseUrl).1 == CategoryJobsOf(CategoryStep(acc, e, baseUrl).0, prefix + [e])
  {
    var entries := prefix + [e];
    assert entries[..|entries| - 1] == prefix;
    var r := CategoryStep(acc, e, baseUrl);
    CategoriesSettledPersist(acc.0, r.0, prefix);
    if e.Dir? {
      var step := GetOrCreateCategory(acc.0, e.name, Some(CategoryDescription(e.name)));
      assert r.0.categories == step.0.categories;
    }
  }

  /** The category pass leaves every category directory settled, and its jobs are the
      recorded ones. */
  lemma {:induction false} CategoryPassSettles(t: Tables, entries: seq<Entry>, baseUrl: string)
    ensures CategoriesSettled(CategoryPass(t, entries, baseUrl).0, entries)
    ensures CategoryPass(t, entries, baseUrl).1 == CategoryJobsOf(CategoryPass(t, entries, baseUrl).0, entries)
  {
    if entries != [] {
      var prefix := entries[..|entries| - 1];
      FrontLast(entries);
      CategoryPassSettles(t, prefix, baseUrl);
      CategoryStepSettles(CategoryPass(t, prefix, baseUrl), prefix, entries[|entries| - 1], baseUrl);
    }
  }

  /** Over settled categories the category pass writes nothing. */
  lemma {:induction false} CategoryPassNoop(t: Tables, entries: seq<Entry>, baseUrl: string)
    requires CategoriesSettled(t, entries)
    ensures CategoryPass(t, entries, baseUrl) == (t, CategoryJobsOf(t, entries))
  {
    if entries != [] {
      CategoryPassNoop(t, entries[..|entries| - 1], baseUrl);
    }
  }

  /** Every subdirectory among `candidates` has its subcategory row and SUBCATEGORY qr row. */
  ghost predicate SubcategoriesSettled(t: Tables, candidates: seq<Candidate>)
  {
    forall i :: 0 <= i < |candidates| && candidates[i].entry.Dir? ==>
      SubcategoryNamed(t, candidates[i].category.id, candidates[i].entry.name).Some?
      && QrIdentified(t, SubcategoryIdentifier(candidates[i].category.name, candidates[i].entry.name)).Some?
  }

  function SubcategoryJobsOf(t: Tables, candidates: seq<Candidate>): seq<SubcategoryJob>
  {
    if candidates == [] then []
    else
      var subs := SubcategoryJobsOf(t, candidates[..|candidates| - 1]);
      var c := candidates[|candidates| - 1];
      if c.entry.Dir? then
        subs + [SubcategoryJob(c.category.name, c.entry.name, IdOf(SubcategoryNamed(t, c.category.id, c.entry.name)),
                               c.category.id, c.entry.entries)]
      else subs
  }

  lemma {:induction false} SubcategoriesSettledPersist(t: Tables, t': Tables, candidates: seq<Candidate>)
    requires Extends(t, t') && SubcategoriesSettled(t, candidates)
    ensures SubcategoriesSettled(t', candidates) && SubcategoryJobsOf(t', candidates) == SubcategoryJobsOf(t, candidates)
  {
    forall i | 0 <= i < |candidates| && candidates[i].entry.Dir?
      ensures SubcategoryNamed(t', candidates[i].category.id, candidates[i].entry.name).Some?
        && QrIdentified(t', SubcategoryIdentifier(candidates[i].category.name, candidates[i].entry.name)).Some?
    {
      SubcategoryPersists(t, t', candidates[i].category.id, candidates[i].entry.name);
      QrPersists(t, t', SubcategoryIdentifier(candidates[i].category.name, candidates[i].entry.name));
    }
    if candidates != [] {
      var c := candidates[|candidates| - 1];
      SubcategoriesSettledPersist(t, t', candidates[..|candidates| - 1]);
      if c.entry.Dir? {
        SubcategoryPersists(t, t', c.category.id, c.entry.name);
      }
    }
  }

  /** One step of the subcategory pass keeps the visited candidates settled. */
  lemma SubcategoryStepSettles(acc: (Tables, seq<SubcategoryJob>), prefix: seq<Candidate>, c: Candidate, baseUrl: string)
    requires SubcategoriesSettled(acc.0, prefix) && acc.1 == SubcategoryJobsOf(acc.0, prefix)
    ensures SubcategoriesSettled(SubcategoryStep(acc, c, baseUrl).0, prefix + [c])
    ensures SubcategoryStep(acc, c, baseUrl).1 == SubcategoryJobsOf(SubcategoryStep(acc, c, baseUrl).0, prefix + [c])
  {
    var candidates := prefix + [c];
    assert candidates[..|candidates| - 1] == prefix;
    var r := SubcategoryStep(acc, c, baseUrl);
    SubcategoriesSettledPersist(acc.0, r.0, prefix);
    if c.entry.Dir? {
      var step := GetOrCreateSubcategory(acc.0, c.category.id, c.entry.name, Some(SubcategoryDescription(c.entry.name)));
      assert r.0.subcategories == step.0.subcategories;
    }
  }

  /** The subcategory pass leaves every subdirectory settled, and its jobs are the recorded
      ones. */
  lemma {:induction false} SubcategoryPassSettles(t: Tables, candidates: seq<Candidate>, baseUrl: string)
    ensures SubcategoriesSettled(SubcategoryPass(t, candidates, baseUrl).0, candidates)
    ensures SubcategoryPass(t, candidates, baseUrl).1 == SubcategoryJobsOf(SubcategoryPass(t, candidates, baseUrl).0, candidates)
  {
    if candidates != [] {
      var prefix := candidates[..|candidates| - 1];
      FrontLast(candidates);
      SubcategoryPassSettles(t, prefix, baseUrl);
      SubcategoryStepSettles(SubcategoryPass(t, prefix, baseUrl), prefix, candidates[|candidates| - 1], baseUrl);
    }
  }

  lemma {:induction false} SubcategoryPassNoop(t: Tables, candidates: seq<Candidate>, baseUrl: string)
    requires SubcategoriesSettled(t, candidates)
    ensures SubcategoryPass(t, candidates, baseUrl) == (t, SubcategoryJobsOf(t, candidates))
  {
    if candidates != [] {
      SubcategoryPassNoop(t, candidates[..|candidates| - 1], baseUrl);
    }
  }

  /** Every file job has a document recorded under its name and path. */
  ghost predicate FilesSettled(t: Tables, jobs: seq<FileJob>, archivesPath: seq<string>)
  {
    forall i :: 0 <= i < |jobs| ==>
      DocumentFiled(t, jobs[i].filename, PathText(JobParts(archivesPath, jobs[i]))).Some?
  }

  lemma FilesSettledPersist(t: Tables, t': Tables, jobs: seq<FileJob>, archivesPath: seq<string>)
    requires Extends(t, t') && FilesSettled(t, jobs, archivesPath)
    ensures FilesSettled(t', jobs, archivesPath)
  {
    forall i | 0 <= i < |jobs|
      ensures DocumentFiled(t', jobs[i].filename, PathText(JobParts(archivesPath, jobs[i]))).Some?
    {
      DocumentPersists(t, t', jobs[i].filename, PathText(JobParts(archivesPath, jobs[i])));
    }
  }

  lemma FilesSettledSnoc(t: Tables, jobs: seq<FileJob>, job: FileJob, archivesPath: seq<string>)
    requires FilesSettled(t, jobs, archivesPath)
    requires DocumentFiled(t, job.filename, PathText(JobParts(archivesPath, job))).Some?
    ensures FilesSettled(t, jobs + [job], archivesPath)
  {
    assert forall i :: 0 <= i < |jobs| ==> (jobs + [job])[i] == jobs[i];
  }

  /** When no registration of the file pass failed, every file ends up recorded. */
  lemma {:induction false} FilePassSettles(t: Tables, jobs: seq<FileJob>, archivesPath: seq<string>, baseUrl: string)
    requires |FilePass(t, jobs, archivesPath, baseUrl).1| == |jobs|
    ensures FilesSettled(FilePass(t, jobs, archivesPath, baseUrl).0, jobs, archivesPath)
  {
    if jobs != [] {
      var prefix := jobs[..|jobs| - 1];
      var (t1, infos) := FilePass(t, prefix, archivesPath, baseUrl);
      var (t2, info) := RegisterJob(t1, jobs[|jobs| - 1], archivesPath, baseUrl);
      assert info.Some? && |infos| == |prefix|;
      FilePassSettles(t, prefix, archivesPath, baseUrl);
      FilesSettledPersist(t1, t2, prefix, archivesPath);
      FrontLast(jobs);
      FilesSettledSnoc(t2, prefix, jobs[|jobs| - 1], archivesPath);
    }
  }

  /** Over recorded files the file pass writes nothing and reports each file as existing. */
  lemma {:induction false} FilePassNoop(t: Tables, jobs: seq<FileJob>, archivesPath: seq<string>, baseUrl: string)
    requires FilesSettled(t, jobs, archivesPath)
    ensures var (t', infos) := FilePass(t, jobs, archivesPath, baseUrl);
      t' == t && |infos| == |jobs| && forall i :: 0 <= i < |infos| ==> infos[i].status == Existing
  {
    if jobs != [] {
      FilePassNoop(t, jobs[..|jobs| - 1], archivesPath, baseUrl);
    }
  }

  // ---------------------------------------------------------------- counting files

  /** `.pdf` files below the subdirectories among `entries` (one category's files). */
  function SubdirPdfCount(entries: seq<Entry>): nat
  {
    if entries == [] then 0
    else
      var e := entries[|entries| - 1];
      SubdirPdfCount(entries[..|entries| - 1]) + (if e.Dir? then |PdfFilesIn(e.entries, [])| else 0)
  }

  /** `.pdf` files a scan of a tree whose root holds `entries` visits. */
  function TreePdfCount(entries: seq<Entry>): nat
  {
    CategoryPdfCount(entries) + |RootPdfFiles(entries)|
  }

  function CategoryPdfCount(entries: seq<Entry>): nat
  {
    if entries == [] then 0
    else
      var e := entries[|entries| - 1];
      CategoryPdfCount(entries[..|entries| - 1]) + (if e.Dir? then SubdirPdfCount(e.entries) else 0)
  }

  function CandidatePdfCount(candidates: seq<Candidate>): nat
  {
    if candidates == [] then 0
    else
      var c := candidates[|candidates| - 1];
      CandidatePdfCount(candidates[..|candidates| - 1]) + (if c.entry.Dir? then |PdfFilesIn(c.entry.entries, [])| else 0)
  }

  lemma {:induction false} CandidatePdfCountAppend(a: seq<Candidate>, b: seq<Candidate>)
    ensures CandidatePdfCount(a + b) == CandidatePdfCount(a) + CandidatePdfCount(b)
  {
    if b == [] {
      assert a + b == a;
    } else {
      assert (a + b)[..|a + b| - 1] == a + b[..|b| - 1];
      CandidatePdfCountAppend(a, b[..|b| - 1]);
    }
  }

  lemma {:induction false} TaggedPdfCount(job: CategoryJob, entries: seq<Entry>)
    ensures CandidatePdfCount(Tagged(job, entries)) == SubdirPdfCount(entries)
  {
    if entries != [] {
      var prefix := entries[..|entries| - 1];
      assert Tagged(job, entries)[..|entries| - 1] == Tagged(job, prefix);
      TaggedPdfCount(job, prefix);
    }
  }

  lemma {:induction false} FileJobsCount(t: Tables, candidates: seq<Candidate>)
    ensures |FileJobs(SubcategoryJobsOf(t, candidates))| == CandidatePdfCount(candidates)
  {
    if candidates != [] {
      var prefix := candidates[..|candidates| - 1];
      FileJobsCount(t, prefix);
      var subs := SubcategoryJobsOf(t, prefix);
      var c := candidates[|candidates| - 1];
      if c.entry.Dir? {
        var s := SubcategoryJob(c.category.name, c.entry.name, IdOf(SubcategoryNamed(t, c.category.id, c.entry.name)),
                                c.category.id, c.entry.entries);
        assert (subs + [s])[..|subs + [s]| - 1] == subs;
      }
    }
  }

  lemma {:induction false} CandidatesCount(t: Tables, entries: seq<Entry>)
    ensures CandidatePdfCount(Candidates(CategoryJobsOf(t, entries))) == CategoryPdfCount(entries)
  {
    if entries != [] {
      var prefix := entries[..|entries| - 1];
      CandidatesCount(t, prefix);
      var jobs := CategoryJobsOf(t, prefix);
      var e := entries[|entries| - 1];
      if e.Dir? {
        var job := CategoryJob(e.name, IdOf(CategoryNamed(t, e.name)), e.entries);
        assert (jobs + [job])[..|jobs + [job]| - 1] == jobs;
        CandidatePdfCountAppend(Candidates(jobs), Tagged(job, e.entries));
        TaggedPdfCount(job, e.entries);
      }
    }
  }

  // ---------------------------------------------------------------- a second scan

  /** Rescanning an unchanged tree after a scan that registered every `.pdf` file it visited
      creates no category, subcategory, counter bump, document or qr row, finds the same
      categories and subcategories, and reports every file as existing and none as new. */
  lemma ScanIdempotent(t: Tables, entries: seq<Entry>, archivesPath: seq<string>, baseUrl: string)
    requires Scan(t, Some(entries), archivesPath, baseUrl).1.value.processed == TreePdfCount(entries)
    ensures var (t1, s1) := Scan(t, Some(entries), archivesPath, baseUrl);
      var (t2, s2) := Scan(t1, Some(entries), archivesPath, baseUrl);
      t2 == t1
      && s2 == Some(Summary(s1.value.categories, s1.value.subcategories, 0, s1.value.processed, s1.value.processed))
  {
    var (a1, jobs) := CategoryPass(t, entries, baseUrl);
    CategoryPassSettles(t, entries, baseUrl);
    var candidates := Candidates(jobs);
    var (a2, subs) := SubcategoryPass(a1, candidates, baseUrl);
    SubcategoryPassSettles(a1, candidates, baseUrl);
    var fileJobs := FileJobs(subs) + RootFileJobs(RootPdfFiles(entries));
    var (a3, files) := FilePass(a2, fileJobs, archivesPath, baseUrl);
    CandidatesCount(a1, entries);
    FileJobsCount(a2, candidates);
    assert |fileJobs| == TreePdfCount(entries);
    FilePassSettles(a2, fileJobs, archivesPath, baseUrl);
    FilePassGrows(a2, fileJobs, archivesPath, baseUrl);
    ExtendsTransitive(a1, a2, a3);
    CategoriesSettledPersist(a1, a3, entries);
    CategoryPassNoop(a3, entries, baseUrl);
    SubcategoriesSettledPersist(a2, a3, candidates);
    SubcategoryPassNoop(a3, candidates, baseUrl);
    FilePassNoop(a3, fileJobs, archivesPath, baseUrl);
    var (a4, files2) := FilePass(a3, fileJobs, archivesPath, baseUrl);
    StatusCountsAddUp(files2);
  }
}
