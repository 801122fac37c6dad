# sync-prompts, modelled in Dafny

`scripts/sync-prompts.py` keeps a playbook's `workflow.json` in step with the
prompt files beside it. It lists the directory's `*.md` files in sorted
order and skips `README.md`. Each other file becomes a prompt: its id is the
file name without `.md`, and its content is the file text without trailing
newlines. The first step whose `id` equals a prompt id gets the prompt as its
`instruction`. The script reports three lists: the updated ids, the prompts
no step matches, and the steps that carry an instruction but have no prompt
file. It then writes the document back.

The model follows the script's own shape:

- `text.dfy` (module `Text`): `str.removesuffix`, `str.rstrip("\n")`, and the
  code-point order that `sorted` uses on file names.
- `collect.dfy` (module `Collect`): the collection loop, which fills the
  insertion-ordered `prompts` dictionary. The dictionary is a sequence of
  `Prompt(id, content)` entries. `Put` is dictionary assignment and `Lookup`
  is dictionary lookup (the value `prompts.items()` pairs with an id).
- `workflow.dfy` (module `Workflow`): a JSON value type, the `Step` record
  (`id`, `instruction`, all other members) and the loaded `Document`. The
  document is the step list plus everything else as an uninterpreted
  remainder.
- `reconcile.dfy` (module `Reconcile`): the update loop and the final scan.
  They run in place on an `array<Step>` in `ReconcileSteps`,
  `SetFirstInstruction` (the inner search loop with `break`) and
  `ScanUnmatchedSteps`. Each method is proved against the specification
  functions `ApplyAll`, `Matched`, `Unmatched` and `Orphans`, and the
  lemmas state the properties of those functions.
- `sync.dfy` (module `Sync`): `sync_prompts` as a whole, with its exits as
  `SyncError` values. It is the method `SyncPrompts`, proved equal to the
  function `Run`. The end-to-end properties are stated about `Run`.

The directory is passed in as values. `WorkflowFile` says whether
`workflow.json` is missing, fails to parse, or parsed to a `Document`. The
listing is the sequence of `PromptFile(name, text)` that
`sorted(glob("*.md"))` and the reads produce. Where a lemma needs the
listing's guarantees (names end in `.md` and are strictly increasing), it
requires `SortedListing`.

The error exits are checked in the code's order. First a missing file, then a
parse error, then an empty prompt set (lines 45-47). Last comes the missing
`workflow.definition.steps` path: the code raises `KeyError` there at line
50, after the empty-prompt check, and the model reports it as
`StepsNotFound`. The description of the tool asks every step id to be
unique, but the code does not rely on that. With duplicate ids only the
first step is updated (the `break` at line 65), and the model does the same.

## Model

| member | source | states |
|---|---|---|
| `Text.RemoveSuffix` | scripts/sync-prompts.py:41 | the step id is the file name with exactly one trailing `.md` removed: id + ".md" == name when the name ends in `.md`, otherwise the name unchanged |
| `Text.StripTrailingNewlines` | scripts/sync-prompts.py:43 | the content is a prefix of the file text that does not end in a newline, and everything cut off is newlines (other trailing whitespace stays) |
| `Collect.ToPrompt` | scripts/sync-prompts.py:41-43 | a file's entry: a name ending in `.md` loses exactly that suffix (id + ".md" == name), any other name is kept whole; the content is a prefix of the text without a trailing newline, and only newlines were cut off |
| `Collect.Put` | scripts/sync-prompts.py:43 | dictionary assignment: the keys gain the id; a new key is appended at the end; in a dictionary, an existing key keeps its position and takes the new value while every other entry stays; the result holds only the new entry and old entries; a dictionary stays one (no key twice) |
| `Collect.Lookup` | scripts/sync-prompts.py:57 | a lookup finds a value exactly when the id is a key of the dictionary, and the value found is stored under that id |
| `Collect.LookupFinds` | scripts/sync-prompts.py:43 | in a dictionary, looking up an entry's key gives back that entry's content |
| `Collect.CollectPrompts` | scripts/sync-prompts.py:36-43 | the collection loop yields exactly `Collected(files)`, the dictionary built from the listing |
| `Collect.CollectedIsDictionary` | scripts/sync-prompts.py:36-43 | the collected prompts never hold an id twice |
| `Collect.CollectedFromFiles` | scripts/sync-prompts.py:37-43 | every collected prompt is `ToPrompt` of a listed file other than `README.md` |
| `Collect.ReadmeNeverCollected` | scripts/sync-prompts.py:39-41 | when every name ends in `.md`, no prompt has the id `README` |
| `Collect.CollectedEmptyIff` | scripts/sync-prompts.py:36-47 | the prompt dictionary is empty exactly when every listed file is `README.md` |
| `Collect.CollectedInListingOrder` | scripts/sync-prompts.py:37-43 | on a sorted listing, the k-th prompt is the k-th file other than `README.md`, with `.md` removed from its name and trailing newlines removed from its text |
| `Workflow.HasInstruction` | scripts/sync-prompts.py:69 | a step lacks an instruction exactly when the `instruction` member is absent or is `null` |
| `Workflow.WithInstruction` | scripts/sync-prompts.py:63 | the updated step keeps its id and all other members, and its instruction is the prompt content as a JSON string, which is never null |
| `Reconcile.StepIds` | scripts/sync-prompts.py:51 | an id is in the set exactly when some step carries it |
| `Reconcile.FirstIndex` | scripts/sync-prompts.py:61-62 | the search finds the first step with the id, or reports that no step has it |
| `Reconcile.SetInstruction` | scripts/sync-prompts.py:61-65 | one prompt's turn: the step count is kept, and step i changes exactly when it has the prompt's id and no earlier step has it; it then takes the prompt's content as instruction |
| `Reconcile.SetFirstInstruction` | scripts/sync-prompts.py:61-65 | the search loop with `break` overwrites the instruction of the first step with the prompt's id and changes nothing else |
| `Reconcile.ScanUnmatchedSteps` | scripts/sync-prompts.py:68-70 | the final scan returns `Orphans` of the steps: the ids, in step order, of steps with a non-null instruction and no prompt |
| `Reconcile.ReconcileSteps` | scripts/sync-prompts.py:50-70 | after the update and scan loops, the array and the three lists are `Reconciliation` of the original steps and the prompts |
| `Reconcile.ApplyAllIsSynced` | scripts/sync-prompts.py:57-65 | the update loop changes step i exactly when step i is the first with its id and a prompt has that id; then only the instruction changes, and it becomes the prompt's content |
| `Reconcile.ApplyAllKeepsShape` | scripts/sync-prompts.py:61-65 | the update keeps the step count, the order, every id and every other member |
| `Reconcile.UnmatchedPromptChangesNothing` | scripts/sync-prompts.py:57-60 | a prompt whose id no step has leaves every step as it was |
| `Reconcile.PromptsPartitioned` | scripts/sync-prompts.py:51-64 | each prompt id is in `updated` exactly when a step has it, and in `unmatched_prompts` exactly when none has; the two lengths add up to the prompt count |
| `Reconcile.PromptListsInOrder` | scripts/sync-prompts.py:57-64 | `updated` and `unmatched_prompts` are subsequences of the prompt ids in collection order |
| `Reconcile.OrphansCharacterized` | scripts/sync-prompts.py:68-70 | an id is an unmatched step exactly when it is not a prompt id and some step with that id has a non-null instruction |
| `Reconcile.OrphansInStepOrder` | scripts/sync-prompts.py:68-70 | `unmatched_steps` is a subsequence of the step ids in step order |
| `Reconcile.UnmatchedStepReportedOnce` | scripts/sync-prompts.py:67-70 | when the step ids are distinct, `unmatched_steps` holds no id twice, so each such step is reported exactly once |
| `Reconcile.OrphansIgnoreUpdates` | scripts/sync-prompts.py:57-70 | the scan after the update gives the same list as a scan of the original steps |
| `Reconcile.UpdatedNeverOrphan` | scripts/sync-prompts.py:57-70 | no updated id is an unmatched step; an id is an unmatched step exactly when it has no prompt and an original step with that id had a non-null instruction, so a null or absent instruction without a file is never flagged |
| `Reconcile.ReconciliationIdempotent` | scripts/sync-prompts.py:57-70 | reconciling the reconciled steps with the same prompts gives the same steps and the same three lists |
| `Reconcile.InSync` | scripts/sync-prompts.py:92 | the report is in sync exactly when no id is listed as an unmatched prompt or an unmatched step |
| `Reconcile.InSyncIff` | scripts/sync-prompts.py:92 | "in sync" holds exactly when every prompt id is a step id and every step that had an instruction has a prompt |
| `Sync.SyncPrompts` | scripts/sync-prompts.py:24-70 | the run equals `Run`; it fails exactly when the workflow is missing or unparsable, no prompt file except `README.md` exists, or the steps path is missing; on success the document outside the steps is unchanged |
| `Sync.NoPromptsFails` | scripts/sync-prompts.py:45-47 | with a loaded workflow, the run stops with `NoPromptFiles`, before anything is written, exactly when the listing holds nothing but `README.md` |
| `Sync.RunWrites` | scripts/sync-prompts.py:57-75 | on a sorted listing, the written document has the same remainder and step count. A step that is the first with its id, where a file `<id>.md` exists, gets that file's text without trailing newlines; every other step is written back as loaded |
| `Sync.ReadmeStepUntouched` | scripts/sync-prompts.py:39-40 | a step with id `README` is written back unchanged |
| `Sync.RunIdempotent` | scripts/sync-prompts.py:57-75 | a second run on the written document with the same files writes the same document and the same report |
| `Sync.RunInSyncIff` | scripts/sync-prompts.py:92-93 | a run reports "all in sync" exactly when every prompt matches a step and every step that had an instruction has a prompt |
| `Sync.RunReportsInOrder` | scripts/sync-prompts.py:37-70 | on a sorted listing, `updated` and `unmatched_prompts` follow file-name order and `unmatched_steps` follows step order |
| `Sync.WorkedExample` | scripts/sync-prompts.py:24-70 | steps `a` (null) and `b` ("old") with files `a.md` ("Hello\n\n") and `c.md` ("World"): `a` becomes "Hello", the report is updated [a], unmatched prompts [c], unmatched steps [b] |

## Left out

- File-system access (`os.path.isfile`, `glob`, `open`, `read`, `write`) is not modelled. The directory is given as a `WorkflowFile` value and a listing of `PromptFile` values. "Written" means the `written` document of a successful `Outcome`; a failure carries no document.
- The sorting by `sorted` is not performed. The listing arrives already sorted, and the lemmas that need sortedness require `SortedListing`.
- `glob` also skips hidden files and may return directories named `*.md`, which `open` would reject. The model takes the listing as given.
- JSON parsing and printing (`json.load`, `json.dump(indent=2)` and the final newline) are not modelled. A parse failure is the `InvalidJson` error, and number literals are kept as text.
- Python's text-mode reads translate `\r\n` and `\r` to `\n`. A file's `text` is taken as the text after that translation.
- The `workflow.definition.steps` traversal is not modelled as dictionary access. A missing path is `steps == None` and the `StepsNotFound` error.
- Every step is assumed to have a string `id`. A step without one would raise `KeyError` at line 51.
- Step members are split into `id`, `instruction` and the rest. When the update adds an `instruction` member that was absent, the position of that new key among the step's keys is not modelled.
- Steps are held as an array of record values, not of shared dictionary objects. `json.load` creates a separate object for every step, so the code has no aliasing that this would lose.
- The printed report (lines 78-90), the usage message and the exit statuses (lines 96-102) are not modelled. Only the "in sync" decision is kept, as `InSync`.
