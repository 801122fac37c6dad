/** Collection of the prompt files of a playbook directory into the
    insertion-ordered `prompts` dictionary (step id to instruction text). */
module Collect {
  import opened Results
  import opened Text

  /** One entry of the sorted `*.md` listing: the base name and the text
      that reading the file returned. */
  datatype PromptFile = PromptFile(name: string, text: string)

  /** One entry of the `prompts` dictionary. */
  datatype Prompt = Prompt(id: string, content: string)

  const Suffix: string := ".md"

  /** The one name in the listing that is never a prompt. */
  const Reserved: string := "README.md"

  /** The entry a prompt file contributes: its name without `.md`, and
      its text without trailing newlines. */
  function ToPrompt(f: PromptFile): (r: Prompt)
    ensures EndsWith(f.name, Suffix) ==> r.id + Suffix == f.name
    ensures !EndsWith(f.name, Suffix) ==> r.id == f.name
    ensures r.content <= f.text && (r.content == [] || r.content[|r.content| - 1] != '\n')
    ensures forall k :: |r.content| <= k < |f.text| ==> f.text[k] == '\n'
  {
    Prompt(RemoveSuffix(f.name, Suffix), StripTrailingNewlines(f.text))
  }

  /** What `sorted(glob("*.md"))` yields: names ending in `.md`, in
      strictly increasing order. */
  predicate SortedListing(files: seq<PromptFile>)
  {
    && (forall k :: 0 <= k < |files| ==> EndsWith(files[k].name, Suffix))
    && (forall i, j :: 0 <= i < j < |files| ==> LexLess(files[i].name, files[j].name))
  }

  /** The keys of the dictionary. */
  function PromptIds(d: seq<Prompt>): set<string>
  {
    set p | p in d :: p.id
  }

  /** The keys in insertion order. */
  function PromptIdSeq(d: seq<Prompt>): seq<string>
  {
    seq(|d|, k requires 0 <= k < |d| => d[k].id)
  }

  /** The ids the files' names give, in listing order. */
  function Stems(files: seq<PromptFile>): seq<string>
  {
    seq(|files|, k requires 0 <= k < |files| => RemoveSuffix(files[k].name, Suffix))
  }

  /** A dictionary holds each key once. */
  predicate DistinctIds(d: seq<Prompt>)
  {
    forall i, j :: 0 <= i < j < |d| ==> d[i].id != d[j].id
  }

  /** Where the key `id` sits in the dictionary, if it is there. */
  function KeyIndex(d: seq<Prompt>, id: string): (r: Option<nat>)
    ensures r.Some? ==> r.value < |d| && d[r.value].id == id
    ensures r.None? ==> id !in PromptIds(d)
  {
    if d == [] then None
    else if d[0].id == id then Some(0)
    else match KeyIndex(d[1..], id)
      case None => None
      case Some(k) => Some(k + 1)
  }

  lemma OverwriteKeepsKeys(d: seq<Prompt>, k: nat, p: Prompt)
    requires k < |d| && d[k].id == p.id
    ensures PromptIds(d[k := p]) == PromptIds(d)
    ensures p in d[k := p]
    ensures forall q :: q in d[k := p] ==> q == p || q in d
  {
    var r := d[k := p];
    assert r[k] == p;
    forall q | q in r
      ensures q == p || q in d
    {
      var i :| 0 <= i < |r| && r[i] == q;
      if i != k {
        assert d[i] == q;
      }
    }
    forall q | q in d
      ensures q.id in PromptIds(r)
    {
      var i :| 0 <= i < |d| && d[i] == q;
      assert r[i].id == q.id;
    }
  }

  /** Dictionary assignment `d[p.id] = p.content`: an existing key keeps
      its position and takes the new value, a new key goes to the end. */
  function Put(d: seq<Prompt>, p: Prompt): (r: seq<Prompt>)
    ensures PromptIds(r) == PromptIds(d) + {p.id}
    ensures p.id !in PromptIds(d) ==> r == d + [p]
    ensures p in r
    ensures forall q :: q in r ==> q == p || q in d
    ensures DistinctIds(d) ==> DistinctIds(r)
    ensures DistinctIds(d) && p.id in PromptIds(d) ==>
      |r| == |d| && forall i :: 0 <= i < |d| ==> r[i] == (if d[i].id == p.id then p else d[i])
  {
    match KeyIndex(d, p.id)
    case None => d + [p]
    case Some(k) =>
      OverwriteKeepsKeys(d, k, p);
      d[k := p]
  }

  /** Dictionary lookup: the value that `prompts.items()` pairs with `id`. */
  function Lookup(d: seq<Prompt>, id: string): (r: Option<string>)
    ensures r.Some? <==> id in PromptIds(d)
    ensures r.Some? ==> Prompt(id, r.value) in d
  {
    if d == [] then None
    else if d[|d| - 1].id == id then Some(d[|d| - 1].content)
    else
      Lookup(d[..|d| - 1], id)
  }

  /** In a dictionary, the value found under a key is the one stored with it. */
  lemma LookupFinds(d: seq<Prompt>, k: nat)
    requires DistinctIds(d) && k < |d|
    ensures Lookup(d, d[k].id) == Some(d[k].content)
  {
  }

  /** The listing without `README.md`, in listing order. */
  function Kept(files: seq<PromptFile>): seq<PromptFile>
  {
    if files == [] then []
    else
      var f := files[|files| - 1];
      Kept(files[..|files| - 1]) + (if f.name == Reserved then [] else [f])
  }

  /** The `prompts` dictionary after the collection loop has seen `files`. */
  function Collected(files: seq<PromptFile>): seq<Prompt>
  {
    if files == [] then []
    else
      var f := files[|files| - 1];
      var d := Collected(files[..|files| - 1]);
      if f.name == Reserved then d else Put(d, ToPrompt(f))
  }

  /** The collection loop. */
  method CollectPrompts(files: seq<PromptFile>) returns (prompts: seq<Prompt>)
    ensures prompts == Collected(files)
  {
    prompts := [];
    for i := 0 to |files|
      invariant prompts == Collected(files[..i])
    {
      var f := files[i];
      assert files[..i + 1][..i] == files[..i];
      if f.name != Reserved {
        var stepId := RemoveSuffix(f.name, Suffix);
        prompts := Put(prompts, Prompt(stepId, StripTrailingNewlines(f.text)));
      }
    }
    assert files[..|files|] == files;
  }

  /** The collected prompts form a dictionary: no id twice. */
  lemma {:induction false} CollectedIsDictionary(files: seq<PromptFile>)
    ensures DistinctIds(Collected(files))
  {
    if files != [] {
      CollectedIsDictionary(files[..|files| - 1]);
    }
  }

  /** Every collected prompt comes from a file of the listing other than
      `README.md`, by `ToPrompt`. */
  lemma {:induction false} CollectedFromFiles(files: seq<PromptFile>)
    ensures forall p :: p in Collected(files) ==>
      exists k :: 0 <= k < |files| && files[k].name != Reserved && p == ToPrompt(files[k])
  {
    if files != [] {
      var prefix := files[..|files| - 1];
      CollectedFromFiles(prefix);
      forall p | p in Collected(files)
        ensures exists k :: 0 <= k < |files| && files[k].name != Reserved && p == ToPrompt(files[k])
      {
        if p in Collected(prefix) {
          var k :| 0 <= k < |prefix| && prefix[k].name != Reserved && p == ToPrompt(prefix[k]);
          assert files[k] == prefix[k];
        } else {
          assert p == ToPrompt(files[|files| - 1]);
        }
      }
    }
  }

  /** `README.md` never becomes a prompt: no prompt has the id `README`,
      so a step with that id is never matched. */
  lemma {:induction false} ReadmeNeverCollected(files: seq<PromptFile>)
    requires forall k :: 0 <= k < |files| ==> EndsWith(files[k].name, Suffix)
    ensures "README" !in PromptIds(Collected(files))
  {
    CollectedFromFiles(files);
    assert "README" + Suffix == Reserved;
    forall p | p in Collected(files)
      ensures p.id != "README"
    {
      var k :| 0 <= k < |files| && files[k].name != Reserved && p == ToPrompt(files[k]);
      assert p.id + Suffix == files[k].name;
    }
  }

  /** The dictionary is empty exactly when the listing holds nothing but
      `README.md`. */
  lemma {:induction false} CollectedEmptyIff(files: seq<PromptFile>)
    ensures Collected(files) == [] <==> forall k :: 0 <= k < |files| ==> files[k].name == Reserved
  {
    if files != [] {
      var prefix := files[..|files| - 1];
      CollectedEmptyIff(prefix);
      if files[|files| - 1].name == Reserved {
        assert forall k :: 0 <= k < |prefix| ==> prefix[k] == files[k];
      }
    }
  }

  /** On a sorted listing, the last file's id is not yet a key when the
      file is reached. */
  lemma LastStemIsNew(files: seq<PromptFile>)
    requires SortedListing(files) && files != []
    ensures ToPrompt(files[|files| - 1]).id !in PromptIds(Collected(files[..|files| - 1]))
  {
    var prefix := files[..|files| - 1];
    var f := files[|files| - 1];
    CollectedFromFiles(prefix);
    LexLessIrreflexive(f.name);
    forall q | q in Collected(prefix)
      ensures q.id != ToPrompt(f).id
    {
      var m :| 0 <= m < |prefix| && prefix[m].name != Reserved && q == ToPrompt(prefix[m]);
      assert files[m] == prefix[m];
      assert LexLess(files[m].name, f.name);
    }
  }

  /** On a sorted listing, collection turns the files other than
      `README.md` into prompts one by one, in listing order: the k-th
      prompt is the k-th such file with `.md` removed from its name and
      trailing newlines from its text. */
  lemma {:induction false} CollectedInListingOrder(files: seq<PromptFile>)
    requires SortedListing(files)
    ensures |Collected(files)| == |Kept(files)|
    ensures forall k :: 0 <= k < |Kept(files)| ==> Collected(files)[k] == ToPrompt(Kept(files)[k])
  {
    if files != [] {
      var prefix := files[..|files| - 1];
      assert SortedListing(prefix);
      CollectedInListingOrder(prefix);
      if files[|files| - 1].name != Reserved {
        LastStemIsNew(files);
      }
    }
  }
}
