/** What the handler loop promises about the records it yields and the updates it applies. */
module ReducerProperties {
  import opened Wrappers
  import opened Text
  import opened Extractor
  import opened ExtractorProperties
  import opened Reducer

  /** The update list the handler reads is the extractor's list of updates. */
  lemma ExtractedUpdates(text: string)
    ensures UpdateList(ExtractPendingStructuredComponents(text)) == Updates(text)
  {
  }

  /** `pendingArtifact` and `artifactPurpose` are the region contents, complete or not. */
  lemma RecordRegions(original: string, apply: Applier, applied: seq<ArtifactUpdate>, text: string, chunk: string)
    ensures Reduce(original, apply, applied, text, chunk).record.pendingArtifact == ContentOf(Region(text, OpenFull, CloseFull))
    ensures Reduce(original, apply, applied, text, chunk).record.artifactPurpose == ContentOf(Region(text, OpenPurpose, ClosePurpose))
  {
  }

  /** A complete update's pair, once found in the text, stays in the list of complete updates. */
  lemma CompleteUpdateStays(text: string, t: string, u: ArtifactUpdate)
    requires u in CompleteUpdates(text)
    ensures u in CompleteUpdates(text + t)
  {
    CompleteUpdatesExtend(text, t);
    var i :| 0 <= i < |CompleteUpdates(text)| && CompleteUpdates(text)[i] == u;
    assert CompleteUpdates(text + t)[i] == u;
  }

  /**
   * One chunk only appends to the applied list; every update it appends is
   * a complete update of the current text, not applied before (by pair); and
   * the chunk's code is the original code with exactly the appended updates
   * applied in order, each call succeeding on the code produced before it.
   */
  lemma StepAppendsNewUpdates(original: string, apply: Applier, applied: seq<ArtifactUpdate>, text: string, chunk: string)
    ensures var r := Reduce(original, apply, applied, text, chunk);
            |applied| <= |r.applied| && r.applied[..|applied|] == applied
    ensures var r := Reduce(original, apply, applied, text, chunk);
            forall k :: |applied| <= k < |r.applied| ==>
              r.applied[k].isComplete && r.applied[k] in Updates(text)
              && !AlreadyApplied(applied, r.applied[k])
    ensures var r := Reduce(original, apply, applied, text, chunk);
            ApplyInSequence(apply, original, r.applied[|applied|..])
              == Some(ApplyAll(apply, original, NewCompleteUpdates(Updates(text), applied)).0)
  {
    var updates := Updates(text);
    ExtractedUpdates(text);
    var newOnes := NewCompleteUpdates(updates, applied);
    var ok := ApplyAll(apply, original, newOnes).1;
    assert Reduce(original, apply, applied, text, chunk).applied == applied + ok;
    ApplyAllRecordsFromList(apply, original, newOnes);
    ApplyAllChain(apply, original, newOnes);
    forall k | 0 <= k < |ok|
      ensures ok[k].isComplete && ok[k] in updates && !AlreadyApplied(applied, ok[k])
    {
      assert ok[k] in multiset(ok);
      NewCompleteUpdatesMembers(updates, applied, ok[k]);
    }
    assert (applied + ok)[..|applied|] == applied;
    assert (applied + ok)[|applied|..] == ok;
    assert forall k :: |applied| <= k < |applied + ok| ==> (applied + ok)[k] == ok[k - |applied|];
  }

  /** No update with the same pair as a recorded one is applied again. */
  lemma RecordedNeverReapplied(original: string, apply: Applier, applied: seq<ArtifactUpdate>, text: string, chunk: string, u: ArtifactUpdate)
    requires AlreadyApplied(applied, u)
    ensures var r := Reduce(original, apply, applied, text, chunk);
            forall k :: |applied| <= k < |r.applied| ==> !SamePair(r.applied[k], u)
  {
    var r := Reduce(original, apply, applied, text, chunk);
    StepAppendsNewUpdates(original, apply, applied, text, chunk);
    var j :| 0 <= j < |applied| && SamePair(applied[j], u);
    forall k | |applied| <= k < |r.applied|
      ensures !SamePair(r.applied[k], u)
    {
      assert !SamePair(applied[j], r.applied[k]);
    }
  }

  /**
   * A complete update that is still not recorded after a chunk (its
   * application failed) is offered to the applier again on the next chunk,
   * whatever that chunk holds.
   */
  lemma UnrecordedUpdateIsRetried(applied: seq<ArtifactUpdate>, text: string, t: string, u: ArtifactUpdate)
    requires u in CompleteUpdates(text) && !AlreadyApplied(applied, u)
    ensures u in NewCompleteUpdates(UpdateList(ExtractPendingStructuredComponents(text + t)), applied)
  {
    CompleteUpdateStays(text, t, u);
    CompleteUpdatesShape(text + t);
    ExtractedUpdates(text + t);
    NewCompleteUpdatesMembers(Updates(text + t), applied, u);
  }

  /** The full artifact counts as finished when it is complete and not the empty (falsy) string. */
  predicate FinishedFull(text: string) {
    var full := Region(text, OpenFull, CloseFull);
    full.Some? && full.value.isComplete && full.value.content != ""
  }

  /**
   * `finishedArtifact`: the complete non-empty full artifact if there is one;
   * otherwise, once any update was ever applied, the ORIGINAL code with this
   * chunk's newly applied updates only; otherwise undefined.
   */
  lemma FinishedArtifactRule(original: string, apply: Applier, applied: seq<ArtifactUpdate>, text: string, chunk: string)
    ensures var r := Reduce(original, apply, applied, text, chunk);
            FinishedFull(text) ==> r.record.finishedArtifact == Some(Region(text, OpenFull, CloseFull).value.content)
    ensures var r := Reduce(original, apply, applied, text, chunk);
            !FinishedFull(text) && r.applied != [] ==>
              r.record.finishedArtifact == Some(ApplyAll(apply, original, NewCompleteUpdates(Updates(text), applied)).0)
    ensures var r := Reduce(original, apply, applied, text, chunk);
            !FinishedFull(text) && r.applied == [] ==> r.record.finishedArtifact.None?
  {
    ExtractedUpdates(text);
  }

  /**
   * When every complete update of the text was applied in earlier chunks and
   * no finished full artifact exists, the record's finished artifact is the
   * ORIGINAL code: the earlier updates are not carried over.
   */
  lemma FinishedRevertsToOriginal(original: string, apply: Applier, applied: seq<ArtifactUpdate>, text: string, chunk: string)
    requires !FinishedFull(text) && applied != []
    requires forall u :: u in CompleteUpdates(text) ==> AlreadyApplied(applied, u)
    ensures Reduce(original, apply, applied, text, chunk).record.finishedArtifact == Some(original)
  {
    FinishedArtifactRule(original, apply, applied, text, chunk);
    IncompleteUpdateIsAlone(text);
    CompleteUpdatesShape(text);
    var newOnes := NewCompleteUpdates(Updates(text), applied);
    if newOnes != [] {
      var u := newOnes[0];
      NewCompleteUpdatesMembers(Updates(text), applied, u);
      assert false;
    }
    StepAppendsNewUpdates(original, apply, applied, text, chunk);
  }

  /** Concatenation of chunk runs splits at any point. */
  lemma {:induction false} ConcatAppend(a: seq<string>, b: seq<string>)
    ensures Concat(a + b) == Concat(a) + Concat(b)
    decreases |b|
  {
    if b != [] {
      var b' := b[..|b| - 1];
      assert (a + b)[..|a + b| - 1] == a + b';
      ConcatAppend(a, b');
    } else {
      assert a + b == a;
    }
  }

  /** The step reports the accumulated text and the chunk it was given. */
  ghost predicate KeepsText(step: StepFn) {
    forall a, t, c :: step(a, t, c).record.fullResponse == t && step(a, t, c).record.nextPart == c
  }

  /** The step only appends to the applied list. */
  ghost predicate AppendsApplied(step: StepFn) {
    forall a, t, c :: |a| <= |step(a, t, c).applied| && step(a, t, c).applied[..|a|] == a
  }

  /** The step reports the full artifact's region content as the pending artifact. */
  ghost predicate ReportsFullRegion(step: StepFn) {
    forall a, t, c :: step(a, t, c).record.pendingArtifact == ContentOf(Region(t, OpenFull, CloseFull))
  }

  /** The handler's reduction has all three properties. */
  lemma HandlerSteps(original: string, apply: Applier)
    ensures KeepsText(Handler(original, apply))
    ensures AppendsApplied(Handler(original, apply))
    ensures ReportsFullRegion(Handler(original, apply))
  {
    forall a, t, c
      ensures |a| <= |Handler(original, apply)(a, t, c).applied|
      ensures Handler(original, apply)(a, t, c).applied[..|a|] == a
      ensures Handler(original, apply)(a, t, c).record.pendingArtifact == ContentOf(Region(t, OpenFull, CloseFull))
    {
      StepAppendsNewUpdates(original, apply, a, t, c);
      RecordRegions(original, apply, a, t, c);
    }
  }

  /**
   * Each record's `fullResponse` is the concatenation of all chunks so far and
   * its `nextPart` is the current chunk.
   */
  lemma {:induction false} RunRecords(step: StepFn, chunks: seq<string>)
    requires KeepsText(step)
    ensures forall i :: 0 <= i < |chunks| ==>
              Run(step, chunks).records[i].fullResponse == Concat(chunks[..i + 1])
              && Run(step, chunks).records[i].nextPart == chunks[i]
    decreases |chunks|
  {
    if chunks != [] {
      var n := |chunks| - 1;
      var p := chunks[..n];
      RunRecords(step, p);
      RunText(step, p);
      assert chunks[..n + 1] == chunks;
      forall i | 0 <= i < n
        ensures p[..i + 1] == chunks[..i + 1] && p[i] == chunks[i]
      {
      }
    }
  }

  /**
   * A longer run extends a shorter one: earlier records are never revised and
   * the applied list only grows.
   */
  lemma {:induction false} RunExtends(step: StepFn, chunks: seq<string>, i: nat)
    requires AppendsApplied(step) && i <= |chunks|
    ensures var short := Run(step, chunks[..i]);
            var long := Run(step, chunks);
            long.records[..i] == short.records
            && |short.applied| <= |long.applied| && long.applied[..|short.applied|] == short.applied
    decreases |chunks|
  {
    if i == |chunks| {
      assert chunks[..i] == chunks;
    } else {
      var n := |chunks| - 1;
      var p := chunks[..n];
      assert p[..i] == chunks[..i];
      RunExtends(step, p, i);
      var s := Run(step, p);
      var long := Run(step, chunks);
      assert long.records[..n] == s.records;
      assert long.records[..i] == s.records[..i];
    }
  }

  /** The accumulated text is the concatenation of the chunks. */
  lemma {:induction false} RunText(step: StepFn, chunks: seq<string>)
    ensures Run(step, chunks).text == Concat(chunks)
    decreases |chunks|
  {
    if chunks != [] {
      RunText(step, chunks[..|chunks| - 1]);
    }
  }

  /** Record `k` is what the step yields on the text after chunk `k`. */
  lemma RecordIsStep(step: StepFn, chunks: seq<string>, k: nat)
    requires k < |chunks|
    ensures Run(step, chunks).records[k]
            == step(Run(step, chunks[..k]).applied, Concat(chunks[..k + 1]), chunks[k]).record
  {
    var pre := chunks[..k + 1];
    RunExtends'(step, chunks, k + 1);
    assert pre[..k] == chunks[..k];
    RunText(step, chunks[..k]);
    var s := Run(step, chunks[..k]);
    assert Run(step, pre) == RunState(s.text + chunks[k], step(s.applied, s.text + chunks[k], chunks[k]).applied,
                                      s.records + [step(s.applied, s.text + chunks[k], chunks[k]).record]);
    assert Concat(pre) == Concat(chunks[..k]) + chunks[k];
    assert Run(step, chunks).records[k] == Run(step, pre).records[k];
  }

  /** Record `k` reports the full artifact region of the text after chunk `k`. */
  lemma RecordReportsRegion(step: StepFn, chunks: seq<string>, k: nat)
    requires ReportsFullRegion(step) && k < |chunks|
    ensures Run(step, chunks).records[k].pendingArtifact == ContentOf(Region(Concat(chunks[..k + 1]), OpenFull, CloseFull))
  {
    RecordIsStep(step, chunks, k);
  }

  /** Records are never revised (no condition on the step is needed for this part). */
  lemma {:induction false} RunExtends'(step: StepFn, chunks: seq<string>, i: nat)
    requires i <= |chunks|
    ensures Run(step, chunks).records[..i] == Run(step, chunks[..i]).records
    decreases |chunks|
  {
    if i == |chunks| {
      assert chunks[..i] == chunks;
    } else {
      var n := |chunks| - 1;
      var p := chunks[..n];
      assert p[..i] == chunks[..i];
      RunExtends'(step, p, i);
      assert Run(step, chunks).records[..n] == Run(step, p).records;
      assert Run(step, chunks).records[..i] == Run(step, p).records[..i];
    }
  }

  /** Once closed after chunk `i`, the full artifact region is the same after every later chunk `j`. */
  lemma FullRegionSettles(chunks: seq<string>, i: nat, j: nat)
    requires i <= j <= |chunks|
    requires RegionClosed(Concat(chunks[..i]), OpenFull, CloseFull)
    ensures Region(Concat(chunks[..j]), OpenFull, CloseFull) == Region(Concat(chunks[..i]), OpenFull, CloseFull)
  {
    assert chunks[..i] + chunks[i..j] == chunks[..j];
    ConcatAppend(chunks[..i], chunks[i..j]);
    RegionFixedOnceClosed(Concat(chunks[..i]), Concat(chunks[i..j]), OpenFull, CloseFull);
  }
}
