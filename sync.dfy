/** One run of the synchroniser on a playbook directory: load the
    workflow, collect the prompts, reconcile, and produce the document to
    write back together with the report. */
module Sync {
  import opened Results
  import opened Text
  import opened Collect
  import opened Workflow
  import opened Reconcile

  /** What is found at `<dir>/workflow.json`. */
  datatype WorkflowFile = Missing | Unparsable | Parsed(doc: Document)

  /** The ways a run stops before anything is written. */
  datatype SyncError =
    | WorkflowNotFound  // no regular file at `<dir>/workflow.json`
    | InvalidJson       // the file is not JSON
    | NoPromptFiles     // no `.md` file other than `README.md`
    | StepsNotFound     // `workflow.definition.steps` is missing

  /** A successful run: the document written back, and the report. */
  datatype Outcome = Outcome(written: Document, report: Report)

  /** A run on the workflow file `file` and the sorted `*.md` listing `files`. */
  function Run(file: WorkflowFile, files: seq<PromptFile>): Result<Outcome, SyncError>
  {
    match file
    case Missing => Failure(WorkflowNotFound)
    case Unparsable => Failure(InvalidJson)
    case Parsed(doc) =>
      var prompts := Collected(files);
      if prompts == [] then Failure(NoPromptFiles)
      else match doc.steps
        case None => Failure(StepsNotFound)
        case Some(s) =>
          var r := Reconciliation(s, prompts);
          Success(Outcome(doc.(steps := Some(r.steps)), r.report))
  }

  /** The synchroniser's entry point, with its error exits as `Failure`
      values: the steps are copied into an array, reconciled in place,
      and put back into the document that is written. */
  method SyncPrompts(file: WorkflowFile, files: seq<PromptFile>) returns (r: Result<Outcome, SyncError>)
    ensures r == Run(file, files)
    ensures r.Failure? <==>
      || !file.Parsed?
      || (forall k :: 0 <= k < |files| ==> files[k].name == Reserved)
      || file.doc.steps.None?
    ensures r.Success? ==> r.value.written.rest == file.doc.rest
  {
    if file.Missing? {
      return Failure(WorkflowNotFound);
    }
    if file.Unparsable? {
      return Failure(InvalidJson);
    }
    var doc := file.doc;
    var prompts := CollectPrompts(files);
    CollectedEmptyIff(files);
    if prompts == [] {
      return Failure(NoPromptFiles);
    }
    if doc.steps.None? {
      return Failure(StepsNotFound);
    }
    var s := doc.steps.value;
    var steps := new Step[|s|](i requires 0 <= i < |s| => s[i]);
    assert steps[..] == s;
    var report := ReconcileSteps(steps, prompts);
    r := Success(Outcome(doc.(steps := Some(steps[..])), report));
  }

  /** The run stops with `NoPromptFiles`, before writing, exactly when the
      workflow loads and no `.md` file other than `README.md` exists. */
  lemma NoPromptsFails(file: WorkflowFile, files: seq<PromptFile>)
    requires file.Parsed?
    ensures Run(file, files) == Failure(NoPromptFiles) <==>
      forall k :: 0 <= k < |files| ==> files[k].name == Reserved
  {
    CollectedEmptyIff(files);
  }

  /** End to end, on a sorted listing: the written document differs from
      the loaded one only in the `instruction` of the first step with each
      id that has a prompt file, which becomes that file's text without
      trailing newlines; every other step, and everything outside the step
      list, is written back as loaded. */
  lemma RunWrites(file: WorkflowFile, files: seq<PromptFile>)
    requires SortedListing(files)
    requires Run(file, files).Success?
    ensures var s, t := file.doc.steps.value, Run(file, files).value.written.steps.value;
      && Run(file, files).value.written.rest == file.doc.rest
      && |t| == |s|
      && forall i :: 0 <= i < |s| ==>
        if IsFirst(s, i) && exists k :: 0 <= k < |Kept(files)| && ToPrompt(Kept(files)[k]).id == s[i].id
        then (exists k :: 0 <= k < |Kept(files)| && ToPrompt(Kept(files)[k]).id == s[i].id
                && t[i] == WithInstruction(s[i], StripTrailingNewlines(Kept(files)[k].text)))
        else t[i] == s[i]
  {
    var s := file.doc.steps.value;
    var P := Collected(files);
    CollectedInListingOrder(files);
    CollectedIsDictionary(files);
    ApplyAllIsSynced(s, P);
    forall i | 0 <= i < |s|
      ensures (exists k :: 0 <= k < |Kept(files)| && ToPrompt(Kept(files)[k]).id == s[i].id) ==>
        exists k :: 0 <= k < |P| && P[k].id == s[i].id && Lookup(P, s[i].id) == Some(StripTrailingNewlines(Kept(files)[k].text))
      ensures (forall k :: 0 <= k < |Kept(files)| ==> ToPrompt(Kept(files)[k]).id != s[i].id) ==>
        Lookup(P, s[i].id).None?
    {
      if exists k :: 0 <= k < |Kept(files)| && ToPrompt(Kept(files)[k]).id == s[i].id {
        var k :| 0 <= k < |Kept(files)| && ToPrompt(Kept(files)[k]).id == s[i].id;
        LookupFinds(P, k);
      }
    }
  }

  /** `README.md` never updates a step: a step with id `README` is written
      back as loaded. */
  lemma ReadmeStepUntouched(file: WorkflowFile, files: seq<PromptFile>)
    requires forall k :: 0 <= k < |files| ==> EndsWith(files[k].name, Suffix)
    requires Run(file, files).Success?
    ensures var s, t := file.doc.steps.value, Run(file, files).value.written.steps.value;
      |t| == |s| && forall i :: 0 <= i < |s| && s[i].id == "README" ==> t[i] == s[i]
  {
    ReadmeNeverCollected(files);
    ApplyAllIsSynced(file.doc.steps.value, Collected(files));
  }

  /** Running the synchroniser a second time on the document it wrote,
      with the same prompt files, writes the same document and reports the
      same three lists. */
  lemma RunIdempotent(file: WorkflowFile, files: seq<PromptFile>)
    requires Run(file, files).Success?
    ensures Run(Parsed(Run(file, files).value.written), files) == Run(file, files)
  {
    ReconciliationIdempotent(file.doc.steps.value, Collected(files));
  }

  /** A successful run reports "all in sync" exactly when every prompt
      file's id is a step id and every step that carried an instruction
      has a prompt file. */
  lemma RunInSyncIff(file: WorkflowFile, files: seq<PromptFile>)
    requires Run(file, files).Success?
    ensures InSync(Run(file, files).value.report) <==>
      (forall k :: 0 <= k < |Collected(files)| ==> Collected(files)[k].id in StepIds(file.doc.steps.value)) &&
      (forall i :: 0 <= i < |file.doc.steps.value| && HasInstruction(file.doc.steps.value[i]) ==>
         file.doc.steps.value[i].id in PromptIds(Collected(files)))
  {
    assert Run(file, files).value.report == Reconciliation(file.doc.steps.value, Collected(files)).report;
    InSyncIff(file.doc.steps.value, Collected(files));
  }

  /** On a sorted listing, `updated` and `unmatched_prompts` follow the
      order of the file names, and `unmatched_steps` the order of the
      steps. */
  lemma RunReportsInOrder(file: WorkflowFile, files: seq<PromptFile>)
    requires SortedListing(files)
    requires Run(file, files).Success?
    ensures Subsequence(Run(file, files).value.report.updated, Stems(Kept(files)))
    ensures Subsequence(Run(file, files).value.report.unmatchedPrompts, Stems(Kept(files)))
    ensures Subsequence(Run(file, files).value.report.unmatchedSteps, StepIdSeq(file.doc.steps.value))
  {
    var s, P := file.doc.steps.value, Collected(files);
    CollectedInListingOrder(files);
    assert PromptIdSeq(P) == Stems(Kept(files));
    PromptListsInOrder(StepIds(s), P);
    OrphansIgnoreUpdates(s, P);
    OrphansInStepOrder(s, PromptIds(P));
  }

  lemma ExampleCollected()
    ensures Collected([PromptFile("a.md", "Hello\n\n"), PromptFile("c.md", "World")])
         == [Prompt("a", "Hello"), Prompt("c", "World")]
  {
    var files := [PromptFile("a.md", "Hello\n\n"), PromptFile("c.md", "World")];
    var pa, pc := Prompt("a", "Hello"), Prompt("c", "World");
    assert StripTrailingNewlines("Hello\n\n") == "Hello" by {
      assert "Hello\n\n"[..6] == "Hello\n";
      assert "Hello\n"[..5] == "Hello";
    }
    assert ToPrompt(files[0]) == pa by {
      assert "a.md"[1..] == Suffix;
    }
    assert ToPrompt(files[1]) == pc by {
      assert "c.md"[1..] == Suffix;
    }
    assert Collected(files[..1]) == [pa] by {
      assert files[..1][..0] == [];
    }
    assert files[..1] == files[..|files| - 1];
    assert KeyIndex([pa], "c") == None;
  }

  lemma ExampleSteps(a: Step, b: Step)
    requires a == Step("a", Present(Null), []) && b == Step("b", Present(String("old")), [])
    ensures ApplyAll([a, b], [Prompt("a", "Hello"), Prompt("c", "World")])
         == [a.(instruction := Present(String("Hello"))), b]
  {
  }

  lemma ExampleReport(a: Step, b: Step)
    requires a == Step("a", Present(Null), []) && b == Step("b", Present(String("old")), [])
    ensures Reconciliation([a, b], [Prompt("a", "Hello"), Prompt("c", "World")]).report
         == Report(["a"], ["c"], ["b"])
  {
    var P := [Prompt("a", "Hello"), Prompt("c", "World")];
    var a' := a.(instruction := Present(String("Hello")));
    ExampleSteps(a, b);
    assert StepIds([a, b]) == {"a", "b"};
    assert PromptIds(P) == {"a", "c"};
    assert P[..1] == [P[0]];
    assert [P[0]][..0] == [];
    assert [a', b][..1] == [a'];
    assert [a'][..0] == [];
    assert Matched({"a", "b"}, P) == ["a"];
    assert Unmatched({"a", "b"}, P) == ["c"];
    assert Orphans([a'], {"a", "c"}) == [];
    assert Orphans([a', b], {"a", "c"}) == ["b"];
  }

  /** A worked run: steps `a` (instruction `null`) and `b` (instruction
      `"old"`), prompt files `a.md` with text "Hello\n\n" and `c.md` with
      text "World". Step `a` gets "Hello", `b` is written back as it was
      and reported as an unmatched step, and `c` is an unmatched prompt. */
  lemma WorkedExample()
    ensures
      var a := Step("a", Present(Null), []);
      var b := Step("b", Present(String("old")), []);
      var doc := Document(Some([a, b]), Object([]));
      var files := [PromptFile("a.md", "Hello\n\n"), PromptFile("c.md", "World")];
      Run(Parsed(doc), files) == Success(Outcome(
        Document(Some([a.(instruction := Present(String("Hello"))), b]), Object([])),
        Report(["a"], ["c"], ["b"])))
  {
    var a := Step("a", Present(Null), []);
    var b := Step("b", Present(String("old")), []);
    ExampleCollected();
    ExampleSteps(a, b);
    ExampleReport(a, b);
  }
}
