/** Reconciliation of the collected prompts with the workflow's steps:
    the update pass over the prompts, and the scan for steps that carry an
    instruction no prompt file supplies. */
module Reconcile {
  import opened Results
  import opened Collect
  import opened Workflow

  /** The three lists the synchroniser reports. */
  datatype Report = Report(updated: seq<string>, unmatchedPrompts: seq<string>, unmatchedSteps: seq<string>)

  /** The steps after reconciliation, with the report. */
  datatype Reconciled = Reconciled(steps: seq<Step>, report: Report)

  /** `{step["id"] for step in steps}`. */
  function StepIds(s: seq<Step>): (r: set<string>)
    ensures forall id :: id in r <==> exists i :: 0 <= i < |s| && s[i].id == id
  {
    set st | st in s :: st.id
  }

  /** The step ids in step order. */
  function StepIdSeq(s: seq<Step>): seq<string>
  {
    seq(|s|, i requires 0 <= i < |s| => s[i].id)
  }

  /** `xs` is `ys` with some elements left out, the rest in their order. */
  ghost predicate Subsequence(xs: seq<string>, ys: seq<string>)
    decreases |ys|
  {
    if ys == [] then xs == []
    else
      || (xs != [] && xs[|xs| - 1] == ys[|ys| - 1] && Subsequence(xs[..|xs| - 1], ys[..|ys| - 1]))
      || Subsequence(xs, ys[..|ys| - 1])
  }

  /** Step `i` is the first step with its id. */
  predicate IsFirst(s: seq<Step>, i: nat)
    requires i < |s|
  {
    forall j :: 0 <= j < i ==> s[j].id != s[i].id
  }

  /** The position of the first step with id `id`, as the search loop with
      `break` finds it. */
  function FirstIndex(s: seq<Step>, id: string): (r: Option<nat>)
    ensures r.Some? ==> r.value < |s| && s[r.value].id == id && IsFirst(s, r.value)
    ensures r.None? <==> id !in StepIds(s)
  {
    if s == [] then None
    else if s[0].id == id then Some(0)
    else match FirstIndex(s[1..], id)
      case None => None
      case Some(k) => Some(k + 1)
  }

  /** One turn of the update loop for a prompt: the first step with the
      prompt's id takes its content as instruction. */
  function SetInstruction(s: seq<Step>, p: Prompt): (r: seq<Step>)
    ensures |r| == |s|
    ensures forall i :: 0 <= i < |s| ==>
      r[i] == if s[i].id == p.id && IsFirst(s, i) then WithInstruction(s[i], p.content) else s[i]
  {
    match FirstIndex(s, p.id)
    case None => s
    case Some(k) =>
      assert forall i :: 0 <= i < |s| && s[i].id == p.id && IsFirst(s, i) ==> i == k;
      s[k := WithInstruction(s[k], p.content)]
  }

  /** The steps after the update loop has handled the prompts `P`, in order. */
  function ApplyAll(s: seq<Step>, P: seq<Prompt>): seq<Step>
    decreases |P|
  {
    if P == [] then s else SetInstruction(ApplyAll(s, P[..|P| - 1]), P[|P| - 1])
  }

  /** Reference definition of the update, step by step: a step changes
      exactly when it is the first with its id and a prompt has that id,
      and then only its instruction, which becomes the prompt's content. */
  function Synced(s: seq<Step>, P: seq<Prompt>, i: nat): Step
    requires i < |s|
  {
    match Lookup(P, s[i].id)
    case Some(content) => if IsFirst(s, i) then WithInstruction(s[i], content) else s[i]
    case None => s[i]
  }

  /** The `updated` list after the prompts `P`. */
  function Matched(ids: set<string>, P: seq<Prompt>): seq<string>
  {
    if P == [] then []
    else Matched(ids, P[..|P| - 1]) + (if P[|P| - 1].id in ids then [P[|P| - 1].id] else [])
  }

  /** The `unmatched_prompts` list after the prompts `P`. */
  function Unmatched(ids: set<string>, P: seq<Prompt>): seq<string>
  {
    if P == [] then []
    else Unmatched(ids, P[..|P| - 1]) + (if P[|P| - 1].id !in ids then [P[|P| - 1].id] else [])
  }

  /** The `unmatched_steps` list after scanning the steps `s`. */
  function Orphans(s: seq<Step>, promptIds: set<string>): seq<string>
  {
    if s == [] then []
    else
      var st := s[|s| - 1];
      Orphans(s[..|s| - 1], promptIds) + (if HasInstruction(st) && st.id !in promptIds then [st.id] else [])
  }

  /** Reconciliation of the steps `s` with the prompts `P`. */
  function Reconciliation(s: seq<Step>, P: seq<Prompt>): Reconciled
  {
    var t := ApplyAll(s, P);
    Reconciled(t, Report(Matched(StepIds(s), P), Unmatched(StepIds(s), P), Orphans(t, PromptIds(P))))
  }

  /** "All prompts and steps are in sync". */
  predicate InSync(r: Report): (b: bool)
    ensures b <==> forall id :: id !in r.unmatchedPrompts && id !in r.unmatchedSteps
  {
    if r.unmatchedPrompts != [] then assert r.unmatchedPrompts[0] in r.unmatchedPrompts; false
    else if r.unmatchedSteps != [] then assert r.unmatchedSteps[0] in r.unmatchedSteps; false
    else true
  }

  /** The update loop changes the steps exactly as `Synced` says. */
  lemma {:induction false} ApplyAllIsSynced(s: seq<Step>, P: seq<Prompt>)
    ensures |ApplyAll(s, P)| == |s|
    ensures forall i :: 0 <= i < |s| ==> ApplyAll(s, P)[i] == Synced(s, P, i)
  {
    if P != [] {
      var P', p := P[..|P| - 1], P[|P| - 1];
      ApplyAllIsSynced(s, P');
      var t := ApplyAll(s, P');
      SameIds(s, t);
      forall i | 0 <= i < |s|
        ensures ApplyAll(s, P)[i] == Synced(s, P, i)
      {
        if s[i].id != p.id {
          assert Lookup(P, s[i].id) == Lookup(P', s[i].id);
        }
      }
    }
  }

  /** Step lists with the same id at every position have the same id
      set, the same first occurrences and the same search results. */
  lemma SameIds(s: seq<Step>, t: seq<Step>)
    requires |s| == |t| && forall i :: 0 <= i < |s| ==> s[i].id == t[i].id
    ensures StepIds(s) == StepIds(t)
    ensures forall i :: 0 <= i < |s| ==> (IsFirst(s, i) <==> IsFirst(t, i))
    ensures forall id :: FirstIndex(s, id) == FirstIndex(t, id)
  {
    forall x | x in StepIds(s)
      ensures x in StepIds(t)
    {
      var i :| 0 <= i < |s| && s[i].id == x;
      assert t[i] in t;
    }
    forall x | x in StepIds(t)
      ensures x in StepIds(s)
    {
      var i :| 0 <= i < |t| && t[i].id == x;
      assert s[i] in s;
    }
  }

  /** The update loop keeps the number, order, ids and other members of
      the steps. */
  lemma ApplyAllKeepsShape(s: seq<Step>, P: seq<Prompt>)
    ensures |ApplyAll(s, P)| == |s|
    ensures forall i :: 0 <= i < |s| ==>
      ApplyAll(s, P)[i].id == s[i].id && ApplyAll(s, P)[i].others == s[i].others
    ensures StepIds(ApplyAll(s, P)) == StepIds(s)
  {
    ApplyAllIsSynced(s, P);
    SameIds(s, ApplyAll(s, P));
  }

  /** The update loop keeps the set of step ids. */
  lemma ApplyAllKeepsIds(s: seq<Step>, P: seq<Prompt>)
    ensures StepIds(ApplyAll(s, P)) == StepIds(s)
  {
    ApplyAllKeepsShape(s, P);
  }

  /** A prompt whose id no step has leaves the steps as they were. */
  lemma UnmatchedPromptChangesNothing(s: seq<Step>, P: seq<Prompt>, p: Prompt)
    requires p.id !in StepIds(s)
    ensures ApplyAll(s, P + [p]) == ApplyAll(s, P)
  {
    assert (P + [p])[..|P|] == P;
    ApplyAllKeepsShape(s, P);
  }

  /** Every prompt id lands in exactly one of `updated` (a step has it)
      and `unmatched_prompts` (no step has it), and together the two lists
      are as long as the prompt list. */
  lemma {:induction false} PromptsPartitioned(ids: set<string>, P: seq<Prompt>)
    ensures |Matched(ids, P)| + |Unmatched(ids, P)| == |P|
    ensures forall x :: x in Matched(ids, P) <==> x in PromptIds(P) && x in ids
    ensures forall x :: x in Unmatched(ids, P) <==> x in PromptIds(P) && x !in ids
  {
    if P != [] {
      var P', p := P[..|P| - 1], P[|P| - 1];
      PromptsPartitioned(ids, P');
      assert P == P' + [p];
      assert PromptIds(P) == PromptIds(P') + {p.id};
    }
  }

  /** `updated` and `unmatched_prompts` list the prompt ids in the order
      the prompts were collected. */
  lemma {:induction false} PromptListsInOrder(ids: set<string>, P: seq<Prompt>)
    ensures Subsequence(Matched(ids, P), PromptIdSeq(P))
    ensures Subsequence(Unmatched(ids, P), PromptIdSeq(P))
  {
    if P != [] {
      var P', p := P[..|P| - 1], P[|P| - 1];
      PromptListsInOrder(ids, P');
      assert PromptIdSeq(P) == PromptIdSeq(P') + [p.id];
      SubsequenceSnoc(Matched(ids, P'), PromptIdSeq(P'), p.id);
      SubsequenceSnoc(Unmatched(ids, P'), PromptIdSeq(P'), p.id);
      if p.id in ids {
        assert Matched(ids, P) == Matched(ids, P') + [p.id];
        assert Unmatched(ids, P) == Unmatched(ids, P');
      } else {
        assert Matched(ids, P) == Matched(ids, P');
        assert Unmatched(ids, P) == Unmatched(ids, P') + [p.id];
      }
    }
  }

  /** A subsequence stays one when both sides, or only the longer one,
      grow by the same element. */
  lemma SubsequenceSnoc(xs: seq<string>, ys: seq<string>, y: string)
    requires Subsequence(xs, ys)
    ensures Subsequence(xs + [y], ys + [y])
    ensures Subsequence(xs, ys + [y])
  {
  }

  /** `unmatched_steps` names exactly the ids of the steps that carry a
      non-null instruction and have no prompt. */
  lemma {:induction false} OrphansCharacterized(s: seq<Step>, promptIds: set<string>)
    ensures forall x :: x in Orphans(s, promptIds) <==>
      x !in promptIds && exists i :: 0 <= i < |s| && s[i].id == x && HasInstruction(s[i])
  {
    if s != [] {
      var s' := s[..|s| - 1];
      OrphansCharacterized(s', promptIds);
      forall x | x !in promptIds && exists i :: 0 <= i < |s| && s[i].id == x && HasInstruction(s[i])
        ensures x in Orphans(s, promptIds)
      {
        var i :| 0 <= i < |s| && s[i].id == x && HasInstruction(s[i]);
        if i < |s| - 1 {
          assert s'[i] == s[i];
        }
      }
    }
  }

  /** No element of `xs` occurs twice. */
  predicate NoDuplicates(xs: seq<string>)
  {
    forall i, j :: 0 <= i < j < |xs| ==> xs[i] != xs[j]
  }

  /** A subsequence takes its elements from the sequence. */
  lemma {:induction false} SubsequenceMembers(xs: seq<string>, ys: seq<string>)
    requires Subsequence(xs, ys)
    ensures forall x :: x in xs ==> x in ys
    decreases |ys|
  {
    if ys != [] {
      var ys' := ys[..|ys| - 1];
      if xs != [] && xs[|xs| - 1] == ys[|ys| - 1] && Subsequence(xs[..|xs| - 1], ys') {
        var xs' := xs[..|xs| - 1];
        SubsequenceMembers(xs', ys');
        assert xs == xs' + [xs[|xs| - 1]];
        assert ys == ys' + [ys[|ys| - 1]];
      } else {
        SubsequenceMembers(xs, ys');
        assert ys == ys' + [ys[|ys| - 1]];
      }
    }
  }

  /** A subsequence of a sequence without duplicates has none either. */
  lemma {:induction false} SubsequenceOfDistinct(xs: seq<string>, ys: seq<string>)
    requires Subsequence(xs, ys) && NoDuplicates(ys)
    ensures NoDuplicates(xs)
    decreases |ys|
  {
    if ys != [] {
      var ys' := ys[..|ys| - 1];
      assert NoDuplicates(ys');
      if xs != [] && xs[|xs| - 1] == ys[|ys| - 1] && Subsequence(xs[..|xs| - 1], ys') {
        var xs' := xs[..|xs| - 1];
        SubsequenceOfDistinct(xs', ys');
        SubsequenceMembers(xs', ys');
        forall i | 0 <= i < |xs'|
          ensures xs'[i] != xs[|xs| - 1]
        {
          assert xs'[i] in ys';
        }
        assert forall i :: 0 <= i < |xs'| ==> xs[i] == xs'[i];
      } else {
        SubsequenceOfDistinct(xs, ys');
      }
    }
  }

  /** `unmatched_steps` lists its ids in step order. */
  lemma {:induction false} OrphansInStepOrder(s: seq<Step>, promptIds: set<string>)
    ensures Subsequence(Orphans(s, promptIds), StepIdSeq(s))
  {
    if s != [] {
      var s', st := s[..|s| - 1], s[|s| - 1];
      OrphansInStepOrder(s', promptIds);
      assert StepIdSeq(s) == StepIdSeq(s') + [st.id];
      SubsequenceSnoc(Orphans(s', promptIds), StepIdSeq(s'), st.id);
      if HasInstruction(st) && st.id !in promptIds {
        assert Orphans(s, promptIds) == Orphans(s', promptIds) + [st.id];
      } else {
        assert Orphans(s, promptIds) == Orphans(s', promptIds);
      }
    }
  }

  /** Steps that agree on every id, and on the instruction wherever the
      id has no prompt, have the same unmatched steps. */
  lemma {:induction false} OrphansAgree(s: seq<Step>, t: seq<Step>, promptIds: set<string>)
    requires |s| == |t|
    requires forall i :: 0 <= i < |s| ==> s[i].id == t[i].id
    requires forall i :: 0 <= i < |s| && s[i].id !in promptIds ==> s[i].instruction == t[i].instruction
    ensures Orphans(s, promptIds) == Orphans(t, promptIds)
  {
    if s != [] {
      OrphansAgree(s[..|s| - 1], t[..|t| - 1], promptIds);
    }
  }

  /** The update pass does not change which steps are unmatched: a step it
      touches has a prompt, and the scan skips such steps. */
  lemma OrphansIgnoreUpdates(s: seq<Step>, P: seq<Prompt>)
    ensures Orphans(ApplyAll(s, P), PromptIds(P)) == Orphans(s, PromptIds(P))
  {
    ApplyAllIsSynced(s, P);
    OrphansAgree(s, ApplyAll(s, P), PromptIds(P));
  }

  /** No updated id is reported as an unmatched step, and a step without
      an instruction is never reported unless another step with its id
      carries one. */
  lemma UpdatedNeverOrphan(s: seq<Step>, P: seq<Prompt>)
    ensures forall x :: x in Reconciliation(s, P).report.updated ==> x !in Reconciliation(s, P).report.unmatchedSteps
    ensures forall x :: x in Reconciliation(s, P).report.unmatchedSteps <==>
      x !in PromptIds(P) && exists i :: 0 <= i < |s| && s[i].id == x && HasInstruction(s[i])
  {
    PromptsPartitioned(StepIds(s), P);
    OrphansIgnoreUpdates(s, P);
    OrphansCharacterized(s, PromptIds(P));
  }

  /** Reconciling the reconciled steps again with the same prompts gives
      the same steps and the same three lists. */
  /** When the step ids are distinct, every unmatched step is reported
      exactly once. */
  lemma UnmatchedStepReportedOnce(s: seq<Step>, P: seq<Prompt>)
    requires NoDuplicates(StepIdSeq(s))
    ensures NoDuplicates(Reconciliation(s, P).report.unmatchedSteps)
  {
    OrphansIgnoreUpdates(s, P);
    OrphansInStepOrder(s, PromptIds(P));
    SubsequenceOfDistinct(Orphans(s, PromptIds(P)), StepIdSeq(s));
  }

  lemma ReconciliationIdempotent(s: seq<Step>, P: seq<Prompt>)
    ensures Reconciliation(Reconciliation(s, P).steps, P) == Reconciliation(s, P)
  {
    var t := ApplyAll(s, P);
    ApplyAllIsSynced(s, P);
    ApplyAllIsSynced(t, P);
    ApplyAllKeepsShape(s, P);
    SameIds(s, t);
    assert ApplyAll(t, P) == t;
  }

  /** The run reports "in sync" exactly when every prompt has a step and
      every step that already carried an instruction has a prompt. */
  lemma InSyncIff(s: seq<Step>, P: seq<Prompt>)
    ensures InSync(Reconciliation(s, P).report) <==>
      && (forall k :: 0 <= k < |P| ==> P[k].id in StepIds(s))
      && (forall i :: 0 <= i < |s| && HasInstruction(s[i]) ==> s[i].id in PromptIds(P))
  {
    UpdatedNeverOrphan(s, P);
    var ids := StepIds(s);
    PromptsPartitioned(ids, P);
    if Unmatched(ids, P) != [] {
      assert Unmatched(ids, P)[0] in Unmatched(ids, P);
    }
    if Reconciliation(s, P).report.unmatchedSteps != [] {
      assert Reconciliation(s, P).report.unmatchedSteps[0] in Reconciliation(s, P).report.unmatchedSteps;
    }
  }

  /** One more turn of the update loop, as the loop sees it. */
  lemma NextPrompt(s: seq<Step>, ids: set<string>, P: seq<Prompt>, i: nat)
    requires i < |P| && ids == StepIds(s)
    ensures ApplyAll(s, P[..i + 1]) == SetInstruction(ApplyAll(s, P[..i]), P[i])
    ensures P[i].id !in ids ==> ApplyAll(s, P[..i + 1]) == ApplyAll(s, P[..i])
    ensures Matched(ids, P[..i + 1]) == Matched(ids, P[..i]) + (if P[i].id in ids then [P[i].id] else [])
    ensures Unmatched(ids, P[..i + 1]) == Unmatched(ids, P[..i]) + (if P[i].id in ids then [] else [P[i].id])
  {
    assert P[..i + 1][..i] == P[..i];
    assert P[..i + 1] == P[..i] + [P[i]];
    if P[i].id !in ids {
      UnmatchedPromptChangesNothing(s, P[..i], P[i]);
    }
  }

  /** Where the search loop stops, `SetInstruction` updates. */
  lemma SetInstructionAt(s: seq<Step>, p: Prompt, j: nat)
    requires j < |s| && s[j].id == p.id
    requires forall k :: 0 <= k < j ==> s[k].id != p.id
    ensures SetInstruction(s, p) == s[j := WithInstruction(s[j], p.content)]
  {
  }

  /** The final scan: the ids, in step order, of the steps that carry a
      non-null instruction and whose id is not a prompt id. */
  method ScanUnmatchedSteps(steps: array<Step>, promptIds: set<string>) returns (unmatched: seq<string>)
    ensures unmatched == Orphans(steps[..], promptIds)
  {
    unmatched := [];
    for k := 0 to steps.Length
      invariant unmatched == Orphans(steps[..k], promptIds)
    {
      assert steps[..k + 1] == steps[..k] + [steps[k]];
      if HasInstruction(steps[k]) && steps[k].id !in promptIds {
        unmatched := unmatched + [steps[k].id];
      }
    }
    assert steps[..steps.Length] == steps[..];
  }

  /** The search loop for one prompt whose id some step has: the first
      step with that id takes the prompt's content as instruction, and the
      search stops there. */
  method SetFirstInstruction(steps: array<Step>, p: Prompt)
    requires p.id in StepIds(steps[..])
    modifies steps
    ensures steps[..] == SetInstruction(old(steps[..]), p)
  {
    ghost var before := steps[..];
    var j := 0;
    while j < steps.Length
      invariant 0 <= j <= steps.Length
      invariant forall k :: 0 <= k < j ==> steps[k].id != p.id
      invariant steps[..] == before
    {
      if steps[j].id == p.id {
        SetInstructionAt(before, p, j);
        steps[j] := WithInstruction(steps[j], p.content);
        break;
      }
      j := j + 1;
    }
  }

  /** The matching and scanning loops of the synchroniser, on the step
      list in place: each prompt either overwrites the instruction of the
      first step with its id or is recorded as unmatched, and a final scan
      records the steps that carry an instruction but have no prompt. */
  method ReconcileSteps(steps: array<Step>, prompts: seq<Prompt>) returns (report: Report)
    modifies steps
    ensures Reconciled(steps[..], report) == Reconciliation(old(steps[..]), prompts)
  {
    ghost var original := steps[..];
    var stepIds := StepIds(steps[..]);
    var updated: seq<string> := [];
    var unmatchedPrompts: seq<string> := [];
    for i := 0 to |prompts|
      invariant steps[..] == ApplyAll(original, prompts[..i])
      invariant updated == Matched(stepIds, prompts[..i])
      invariant unmatchedPrompts == Unmatched(stepIds, prompts[..i])
    {
      var p := prompts[i];
      NextPrompt(original, stepIds, prompts, i);
      ApplyAllKeepsIds(original, prompts[..i]);
      if p.id !in stepIds {
        unmatchedPrompts := unmatchedPrompts + [p.id];
      } else {
        SetFirstInstruction(steps, p);
        updated := updated + [p.id];
      }
    }
    assert prompts[..|prompts|] == prompts;
    var promptIds := PromptIds(prompts);
    var unmatchedSteps := ScanUnmatchedSteps(steps, promptIds);
    report := Report(updated, unmatchedPrompts, unmatchedSteps);
  }
}
