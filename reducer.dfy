/**
 * The per-chunk reduction of the `nextMessage` handler: the streamed model
 * output is accumulated chunk by chunk, the extractor is re-run on the whole
 * text after every chunk, complete updates not applied yet are handed to the
 * update applier in order, and one record is yielded per chunk.
 *
 * The applier is a language-model call in the system; here it is a function
 * parameter that either returns the updated code or fails (None), and a
 * failure is swallowed exactly as the source's `catch` does.
 */
module Reducer {
  import opened Wrappers
  import opened Text
  import opened Extractor
  import opened ExtractorProperties

  /** `applyUpdate(instruction, currentArtifact, updateDescription)`: the new code, or None when it throws. */
  type Applier = (string, string, string) -> Option<string>

  /** One yielded record; a None field is the source's `undefined`. */
  datatype StreamRecord = StreamRecord(
    fullResponse: string,
    nextPart: string,
    finishedArtifact: Option<string>,
    pendingArtifact: Option<string>,
    artifactPurpose: Option<string>)

  /** What one chunk does: the new list of applied updates and the record it yields. */
  datatype StepResult = StepResult(applied: seq<ArtifactUpdate>, record: StreamRecord)

  /** Two updates are the same for de-duplication when both text fields are equal; the flag is ignored. */
  predicate SamePair(a: ArtifactUpdate, b: ArtifactUpdate) {
    a.instruction == b.instruction && a.updateDescription == b.updateDescription
  }

  /** `allUpdatesApplied.some(...)`: an update with the same pair was already applied. */
  predicate AlreadyApplied(applied: seq<ArtifactUpdate>, u: ArtifactUpdate) {
    exists j :: 0 <= j < |applied| && SamePair(applied[j], u)
  }

  /** The `filter` that keeps the complete updates whose pair is not applied yet, in order. */
  function NewCompleteUpdates(updates: seq<ArtifactUpdate>, applied: seq<ArtifactUpdate>): seq<ArtifactUpdate> {
    if updates == [] then []
    else
      var rest := NewCompleteUpdates(updates[1..], applied);
      if updates[0].isComplete && !AlreadyApplied(applied, updates[0]) then [updates[0]] + rest else rest
  }

  /** An update is kept exactly when it occurs in the list, is complete and is not applied yet. */
  lemma {:induction false} NewCompleteUpdatesMembers(updates: seq<ArtifactUpdate>, applied: seq<ArtifactUpdate>, u: ArtifactUpdate)
    ensures u in NewCompleteUpdates(updates, applied) <==> u in updates && u.isComplete && !AlreadyApplied(applied, u)
  {
    if updates != [] {
      NewCompleteUpdatesMembers(updates[1..], applied, u);
      assert updates == [updates[0]] + updates[1..];
    }
  }

  /** The filter distributes over concatenation, so it keeps order and multiplicity. */
  lemma {:induction false} NewCompleteUpdatesAppend(a: seq<ArtifactUpdate>, b: seq<ArtifactUpdate>, applied: seq<ArtifactUpdate>)
    ensures NewCompleteUpdates(a + b, applied) == NewCompleteUpdates(a, applied) + NewCompleteUpdates(b, applied)
  {
    if a != [] {
      assert (a + b)[1..] == a[1..] + b;
      NewCompleteUpdatesAppend(a[1..], b, applied);
    } else {
      assert a + b == b;
    }
  }

  /** Two equal complete blocks first seen in the same chunk are both kept, and so both applied. */
  lemma DuplicatesInOneChunkBothKept(u: ArtifactUpdate, applied: seq<ArtifactUpdate>)
    requires u.isComplete && !AlreadyApplied(applied, u)
    ensures NewCompleteUpdates([u, u], applied) == [u, u]
  {
    NewCompleteUpdatesAppend([u], [u], applied);
    assert [u, u] == [u] + [u];
  }

  /**
   * The inner `for` loop: each update is applied in turn to the code produced
   * so far; a failing update leaves the code as it was and is not recorded.
   * The result is the final code and the updates applied, in order.
   */
  function ApplyAll(apply: Applier, current: string, updates: seq<ArtifactUpdate>): (string, seq<ArtifactUpdate>)
    decreases |updates|
  {
    if updates == [] then (current, [])
    else
      var u := updates[0];
      match apply(u.instruction, current, u.updateDescription)
      case None => ApplyAll(apply, current, updates[1..])
      case Some(next) =>
        var r := ApplyAll(apply, next, updates[1..]);
        (r.0, [u] + r.1)
  }

  /** The applier succeeds on every input. */
  ghost predicate AlwaysSucceeds(apply: Applier) {
    forall i, c, d :: apply(i, c, d).Some?
  }

  /** Only updates of the list are recorded, never more often than they occur. */
  lemma {:induction false} ApplyAllRecordsFromList(apply: Applier, current: string, updates: seq<ArtifactUpdate>)
    ensures multiset(ApplyAll(apply, current, updates).1) <= multiset(updates)
    decreases |updates|
  {
    if updates != [] {
      var u := updates[0];
      assert updates == [u] + updates[1..];
      match apply(u.instruction, current, u.updateDescription)
      case None => ApplyAllRecordsFromList(apply, current, updates[1..]);
      case Some(next) => ApplyAllRecordsFromList(apply, next, updates[1..]);
    }
  }

  /**
   * Applying `us` one after the other to `code`: the final code when every
   * call succeeds on the code produced by the calls before it, None as soon
   * as one fails.
   */
  function ApplyInSequence(apply: Applier, code: string, us: seq<ArtifactUpdate>): Option<string>
    decreases |us|
  {
    if us == [] then Some(code)
    else
      match apply(us[0].instruction, code, us[0].updateDescription)
      case None => None
      case Some(next) => ApplyInSequence(apply, next, us[1..])
  }

  /** The final code is the starting code with the recorded updates applied in order, each call succeeding. */
  lemma {:induction false} ApplyAllChain(apply: Applier, current: string, updates: seq<ArtifactUpdate>)
    ensures ApplyInSequence(apply, current, ApplyAll(apply, current, updates).1) == Some(ApplyAll(apply, current, updates).0)
    decreases |updates|
  {
    if updates != [] {
      var u := updates[0];
      match apply(u.instruction, current, u.updateDescription)
      case None => ApplyAllChain(apply, current, updates[1..]);
      case Some(next) =>
        ApplyAllChain(apply, next, updates[1..]);
        var r := ApplyAll(apply, next, updates[1..]);
        assert ([u] + r.1)[1..] == r.1;
    }
  }

  /** `idx` lists strictly increasing positions of `updates` holding the `recorded` updates, in order. */
  ghost predicate Picks(updates: seq<ArtifactUpdate>, recorded: seq<ArtifactUpdate>, idx: seq<nat>) {
    |idx| == |recorded|
    && (forall k :: 0 <= k < |idx| ==> idx[k] < |updates| && updates[idx[k]] == recorded[k])
    && (forall k, l :: 0 <= k < l < |idx| ==> idx[k] < idx[l])
  }

  /** `codes[k]` is the code before the `k`-th recorded update, and that call turns it into `codes[k + 1]`. */
  ghost predicate Succeeds(apply: Applier, recorded: seq<ArtifactUpdate>, codes: seq<string>) {
    |codes| == |recorded| + 1
    && forall k :: 0 <= k < |recorded| ==>
         apply(recorded[k].instruction, codes[k], recorded[k].updateDescription) == Some(codes[k + 1])
  }

  /** Update `j` lies strictly between the recorded positions `idx[k - 1]` and `idx[k]`. */
  predicate Between(idx: seq<nat>, j: nat, k: nat)
    requires k <= |idx|
  {
    (k == 0 || idx[k - 1] < j) && (k == |idx| || j < idx[k])
  }

  /** Every update skipped between two recorded ones fails on the code current at that point. */
  ghost predicate SkipsFail(apply: Applier, updates: seq<ArtifactUpdate>, idx: seq<nat>, codes: seq<string>)
    requires |codes| == |idx| + 1
  {
    forall j, k :: 0 <= j < |updates| && 0 <= k < |codes| && Between(idx, j, k) ==>
      apply(updates[j].instruction, codes[k], updates[j].updateDescription).None?
  }

  /**
   * A run of the applier loop over `updates` starting from `current`:
   * `recorded` is picked from `updates` at the positions `idx`, each recorded
   * call succeeds on the code before it, every update skipped fails on the
   * code current at that point, and the last code is `final`.
   */
  ghost predicate ApplyTrace(apply: Applier, current: string, updates: seq<ArtifactUpdate>,
                             final: string, recorded: seq<ArtifactUpdate>, idx: seq<nat>, codes: seq<string>) {
    Picks(updates, recorded, idx) && Succeeds(apply, recorded, codes)
    && codes[0] == current && codes[|idx|] == final
    && SkipsFail(apply, updates, idx, codes)
  }

  /** Every position moved one place on. */
  function Shift(idx: seq<nat>): (r: seq<nat>)
    ensures |r| == |idx| && forall k :: 0 <= k < |idx| ==> r[k] == idx[k] + 1
  {
    seq(|idx|, k requires 0 <= k < |idx| => idx[k] + 1)
  }

  /** A failing first update is skipped: the trace of the rest is a trace of the whole list. */
  lemma TraceSkip(apply: Applier, current: string, updates: seq<ArtifactUpdate>,
                  final: string, recorded: seq<ArtifactUpdate>, idx: seq<nat>, codes: seq<string>)
    requires updates != [] && apply(updates[0].instruction, current, updates[0].updateDescription).None?
    requires ApplyTrace(apply, current, updates[1..], final, recorded, idx, codes)
    ensures ApplyTrace(apply, current, updates, final, recorded, Shift(idx), codes)
  {
    var sidx := Shift(idx);
    forall k | 0 <= k < |sidx|
      ensures sidx[k] < |updates| && updates[sidx[k]] == recorded[k]
    {
      assert updates[sidx[k]] == updates[1..][idx[k]];
    }
    forall j, k | 0 <= j < |updates| && 0 <= k < |codes| && Between(sidx, j, k)
      ensures apply(updates[j].instruction, codes[k], updates[j].updateDescription).None?
    {
      if j > 0 {
        assert updates[j] == updates[1..][j - 1];
        assert Between(idx, j - 1, k);
      }
    }
  }

  /** Picking a first update that succeeds: positions move one on, behind position 0. */
  lemma TakePicks(updates: seq<ArtifactUpdate>, recorded: seq<ArtifactUpdate>, idx: seq<nat>)
    requires updates != [] && Picks(updates[1..], recorded, idx)
    ensures Picks(updates, [updates[0]] + recorded, [0] + Shift(idx))
  {
    var ridx := [0] + Shift(idx);
    var rrec := [updates[0]] + recorded;
    forall k | 0 <= k < |ridx|
      ensures ridx[k] < |updates| && updates[ridx[k]] == rrec[k]
    {
      if k > 0 {
        assert updates[ridx[k]] == updates[1..][idx[k - 1]];
      }
    }
  }

  /** A succeeding first call extends the chain of successful calls. */
  lemma TakeSucceeds(apply: Applier, current: string, u: ArtifactUpdate, recorded: seq<ArtifactUpdate>, codes: seq<string>)
    requires Succeeds(apply, recorded, codes) && apply(u.instruction, current, u.updateDescription) == Some(codes[0])
    ensures Succeeds(apply, [u] + recorded, [current] + codes)
  {
    var rrec := [u] + recorded;
    var rcodes := [current] + codes;
    forall k | 0 <= k < |rrec|
      ensures apply(rrec[k].instruction, rcodes[k], rrec[k].updateDescription) == Some(rcodes[k + 1])
    {
      if k > 0 {
        assert rrec[k] == recorded[k - 1] && rcodes[k] == codes[k - 1] && rcodes[k + 1] == codes[k];
      }
    }
  }

  /** After a succeeding first update, the skipped updates are those skipped in the rest. */
  lemma TakeSkipsFail(apply: Applier, current: string, updates: seq<ArtifactUpdate>, idx: seq<nat>, codes: seq<string>)
    requires updates != [] && |codes| == |idx| + 1 && SkipsFail(apply, updates[1..], idx, codes)
    ensures SkipsFail(apply, updates, [0] + Shift(idx), [current] + codes)
  {
    var ridx := [0] + Shift(idx);
    var rcodes := [current] + codes;
    forall j, k | 0 <= j < |updates| && 0 <= k < |rcodes| && Between(ridx, j, k)
      ensures apply(updates[j].instruction, rcodes[k], updates[j].updateDescription).None?
    {
      assert k > 0 && j > 0;
      assert updates[j] == updates[1..][j - 1] && rcodes[k] == codes[k - 1];
      assert Between(idx, j - 1, k - 1);
    }
  }

  /** A succeeding first update is recorded first: it extends the trace of the rest from the new code. */
  lemma TraceTake(apply: Applier, current: string, updates: seq<ArtifactUpdate>, next: string,
                  final: string, recorded: seq<ArtifactUpdate>, idx: seq<nat>, codes: seq<string>)
    requires updates != [] && apply(updates[0].instruction, current, updates[0].updateDescription) == Some(next)
    requires ApplyTrace(apply, next, updates[1..], final, recorded, idx, codes)
    ensures ApplyTrace(apply, current, updates, final, [updates[0]] + recorded, [0] + Shift(idx), [current] + codes)
  {
    TakePicks(updates, recorded, idx);
    TakeSucceeds(apply, current, updates[0], recorded, codes);
    TakeSkipsFail(apply, current, updates, idx, codes);
  }

  /**
   * `ApplyAll` is the applier loop: its records are picked in order from the
   * list, each applied with success to the code produced so far, and every
   * update it skips failed on the code current when it was offered.
   */
  lemma {:induction false} ApplyAllTrace(apply: Applier, current: string, updates: seq<ArtifactUpdate>)
    ensures exists idx, codes :: ApplyTrace(apply, current, updates,
                                            ApplyAll(apply, current, updates).0, ApplyAll(apply, current, updates).1, idx, codes)
    decreases |updates|
  {
    if updates == [] {
      var none: seq<nat> := [];
      assert ApplyAll(apply, current, updates) == (current, []);
      assert Picks(updates, [], none);
      assert ApplyTrace(apply, current, updates, current, [], none, [current]);
    } else {
      var u := updates[0];
      match apply(u.instruction, current, u.updateDescription)
      case None =>
        ApplyAllTrace(apply, current, updates[1..]);
        var r := ApplyAll(apply, current, updates[1..]);
        var idx, codes :| ApplyTrace(apply, current, updates[1..], r.0, r.1, idx, codes);
        TraceSkip(apply, current, updates, r.0, r.1, idx, codes);
        assert ApplyAll(apply, current, updates) == r;
        assert ApplyTrace(apply, current, updates, r.0, r.1, Shift(idx), codes);
      case Some(next) =>
        ApplyAllTrace(apply, next, updates[1..]);
        var r := ApplyAll(apply, next, updates[1..]);
        var idx, codes :| ApplyTrace(apply, next, updates[1..], r.0, r.1, idx, codes);
        TraceTake(apply, current, updates, next, r.0, r.1, idx, codes);
        assert ApplyAll(apply, current, updates) == (r.0, [u] + r.1);
        assert ApplyTrace(apply, current, updates, r.0, [u] + r.1, [0] + Shift(idx), [current] + codes);
    }
  }

  /** When nothing is recorded, the code is left as it was. */
  lemma {:induction false} ApplyAllNothingRecorded(apply: Applier, current: string, updates: seq<ArtifactUpdate>)
    ensures ApplyAll(apply, current, updates).1 == [] ==> ApplyAll(apply, current, updates).0 == current
    decreases |updates|
  {
    if updates != [] {
      var u := updates[0];
      match apply(u.instruction, current, u.updateDescription)
      case None => ApplyAllNothingRecorded(apply, current, updates[1..]);
      case Some(next) =>
    }
  }

  /** When the applier never fails, every update is recorded, in order. */
  lemma {:induction false} ApplyAllTotal(apply: Applier, current: string, updates: seq<ArtifactUpdate>)
    requires AlwaysSucceeds(apply)
    ensures ApplyAll(apply, current, updates).1 == updates
    decreases |updates|
  {
    if updates != [] {
      var u := updates[0];
      assert apply(u.instruction, current, u.updateDescription).Some?;
      ApplyAllTotal(apply, apply(u.instruction, current, u.updateDescription).value, updates[1..]);
      assert updates == [u] + updates[1..];
    }
  }

  /** The update list of an extraction, empty when the key is unset. */
  function UpdateList(components: Option<ExtractedComponents>): seq<ArtifactUpdate> {
    if components.Some? && components.value.gristArtifactUpdates.Some?
    then components.value.gristArtifactUpdates.value
    else []
  }

  /** The content of an extracted region, when the region exists. */
  function ContentOf(region: Option<ExtractedArtifact>): Option<string> {
    match region
    case None => None
    case Some(a) => Some(a.content)
  }

  /**
   * One iteration of the `for await` loop, on the text accumulated so far
   * (the chunk already appended) and the updates applied in earlier chunks.
   */
  function Reduce(original: string, apply: Applier, applied: seq<ArtifactUpdate>, text: string, chunk: string): StepResult {
    var components := ExtractPendingStructuredComponents(text);
    var full := if components.Some? then components.value.gristArtifactFull else None;
    var purpose := if components.Some? then components.value.gristArtifactPurpose else None;
    var finishedFull := if full.Some? && full.value.isComplete then Some(full.value.content) else None;
    var newUpdates := NewCompleteUpdates(UpdateList(components), applied);
    var (current, ok) := ApplyAll(apply, original, newUpdates);
    var applied' := applied + ok;
    // `finishedArtifactFull || ...`: an empty full artifact is falsy and falls through
    var finished :=
      if finishedFull.Some? && finishedFull.value != "" then finishedFull
      else if |applied'| > 0 then Some(current)
      else None;
    StepResult(applied', StreamRecord(text, chunk, finished, ContentOf(full), ContentOf(purpose)))
  }

  /** The state after a run of chunks, and the records yielded so far. */
  datatype RunState = RunState(text: string, applied: seq<ArtifactUpdate>, records: seq<StreamRecord>)

  /** A per-chunk reduction: from the applied list, the accumulated text and the chunk, the step's result. */
  type StepFn = (seq<ArtifactUpdate>, string, string) -> StepResult

  /** The handler's reduction for a given original code and applier. */
  function Handler(original: string, apply: Applier): StepFn {
    (applied, text, chunk) => Reduce(original, apply, applied, text, chunk)
  }

  /** The loop over `chunks` with reduction `step`; one record per chunk. */
  function Run(step: StepFn, chunks: seq<string>): (s: RunState)
    ensures |s.records| == |chunks|
    decreases |chunks|
  {
    if chunks == [] then RunState("", [], [])
    else
      var s := Run(step, chunks[..|chunks| - 1]);
      var chunk := chunks[|chunks| - 1];
      var r := step(s.applied, s.text + chunk, chunk);
      RunState(s.text + chunk, r.applied, s.records + [r.record])
  }

  /** The concatenation of the chunks. */
  function Concat(chunks: seq<string>): string
    decreases |chunks|
  {
    if chunks == [] then "" else Concat(chunks[..|chunks| - 1]) + chunks[|chunks| - 1]
  }

  /** The handler state, updated in place by every chunk. */
  class ArtifactStream {
    const originalArtifact: string
    const apply: Applier
    var accumulatedText: string
    var allUpdatesApplied: seq<ArtifactUpdate>

    constructor (originalArtifact: string, apply: Applier)
      ensures this.originalArtifact == originalArtifact && this.apply == apply
      ensures accumulatedText == "" && allUpdatesApplied == []
    {
      this.originalArtifact := originalArtifact;
      this.apply := apply;
      accumulatedText := "";
      allUpdatesApplied := [];
    }

    /**
     * Applies each update in turn to the original code, recording those
     * whose application succeeds; returns the resulting code.
     */
    method ApplyInOrder(newUpdates: seq<ArtifactUpdate>) returns (currentArtifact: string)
      modifies this
      ensures accumulatedText == old(accumulatedText)
      ensures currentArtifact == ApplyAll(apply, originalArtifact, newUpdates).0
      ensures allUpdatesApplied == old(allUpdatesApplied) + ApplyAll(apply, originalArtifact, newUpdates).1
    {
      currentArtifact := originalArtifact;
      var i := 0;
      while i < |newUpdates|
        invariant 0 <= i <= |newUpdates|
        invariant accumulatedText == old(accumulatedText)
        invariant ApplyAll(apply, currentArtifact, newUpdates[i..]).0 == ApplyAll(apply, originalArtifact, newUpdates).0
        invariant allUpdatesApplied + ApplyAll(apply, currentArtifact, newUpdates[i..]).1
                  == old(allUpdatesApplied) + ApplyAll(apply, originalArtifact, newUpdates).1
      {
        var update := newUpdates[i];
        assert newUpdates[i..][1..] == newUpdates[i + 1..];
        var updatedCode := apply(update.instruction, currentArtifact, update.updateDescription);
        if updatedCode.Some? {
          currentArtifact := updatedCode.value;
          allUpdatesApplied := allUpdatesApplied + [update];
        }
        i := i + 1;
      }
      assert newUpdates[|newUpdates|..] == [];
    }

    /** Handles one chunk: appends it, applies the new complete updates, and yields the record. */
    method Step(chunk: string) returns (rec: StreamRecord)
      modifies this
      ensures accumulatedText == old(accumulatedText) + chunk
      ensures StepResult(allUpdatesApplied, rec)
              == Reduce(originalArtifact, apply, old(allUpdatesApplied), accumulatedText, chunk)
    {
      accumulatedText := accumulatedText + chunk;
      var components := ExtractPendingStructuredComponents(accumulatedText);
      var finishedFull: Option<string> := None;
      if components.Some? && components.value.gristArtifactFull.Some? && components.value.gristArtifactFull.value.isComplete {
        finishedFull := Some(components.value.gristArtifactFull.value.content);
      }
      var currentArtifact := originalArtifact;
      var newUpdates := NewCompleteUpdates(UpdateList(components), allUpdatesApplied);
      if |UpdateList(components)| > 0 && |newUpdates| > 0 {
        currentArtifact := ApplyInOrder(newUpdates);
      }
      var pendingArtifactFull: Option<string> := None;
      var artifactPurpose: Option<string> := None;
      if components.Some? {
        pendingArtifactFull := ContentOf(components.value.gristArtifactFull);
        artifactPurpose := ContentOf(components.value.gristArtifactPurpose);
      }
      var finished: Option<string> := None;
      if finishedFull.Some? && finishedFull.value != "" {
        finished := finishedFull;
      } else if |allUpdatesApplied| > 0 {
        finished := Some(currentArtifact);
      }
      rec := StreamRecord(accumulatedText, chunk, finished, pendingArtifactFull, artifactPurpose);
    }
  }

  /** `nextMessage`: feeds the chunks to a fresh handler state and collects the yielded records. */
  method NextMessage(originalArtifact: string, apply: Applier, chunks: seq<string>) returns (records: seq<StreamRecord>)
    ensures records == Run(Handler(originalArtifact, apply), chunks).records
  {
    var stream := new ArtifactStream(originalArtifact, apply);
    records := [];
    var i := 0;
    while i < |chunks|
      invariant 0 <= i <= |chunks|
      invariant stream.originalArtifact == originalArtifact && stream.apply == apply
      invariant RunState(stream.accumulatedText, stream.allUpdatesApplied, records)
                == Run(Handler(originalArtifact, apply), chunks[..i])
    {
      assert chunks[..i + 1][..i] == chunks[..i];
      var rec := stream.Step(chunks[i]);
      records := records + [rec];
      i := i + 1;
    }
    assert chunks[..|chunks|] == chunks;
  }
}
