/**
 * What the extractor promises about a single text, and how its answer
 * evolves while the model output grows chunk by chunk.
 */
module ExtractorProperties {
  import opened Wrappers
  import opened Text
  import opened Extractor

  /** An opening tag name that starts with `<grist_artifact_` cannot match where that prefix is absent. */
  lemma NoOpenTagWithoutPrefix(text: string, open: string)
    requires !Contains(text, TagPrefix) && TagPrefix <= open
    ensures OpenTag(text, open, 0).None?
  {
    var r := IndexOf(text, open, 0);
    if r.Some? {
      IndexOfSpec(text, open, 0);
      MatchesAtPrefix(text, open, TagPrefix, r.value);
      IncludesIff(text, TagPrefix, 0, r.value);
      assert false;
    }
  }

  /** Text without `<grist_artifact_` yields no components at all (the source's `undefined`). */
  lemma PlainTextHasNoComponents(text: string)
    requires !Contains(text, TagPrefix)
    ensures ExtractPendingStructuredComponents(text).None?
  {
    NoOpenTagWithoutPrefix(text, OpenFull);
    NoOpenTagWithoutPrefix(text, OpenUpdate);
    NoOpenTagWithoutPrefix(text, OpenPurpose);
    assert NextBlock(text, OpenUpdate, CloseUpdate, 0).None?;
  }

  /**
   * A region is reported exactly when its opening pattern matches somewhere,
   * and it is complete exactly when its closing tag occurs anywhere in the text.
   */
  lemma RegionSpec(text: string, open: string, close: string)
    ensures Region(text, open, close).Some? <==> exists p :: OpenTagAt(text, open, p)
    ensures Region(text, open, close).Some? ==> Region(text, open, close).value.isComplete == Contains(text, close)
  {
    OpenTagLeftmost(text, open, 0);
    var r := OpenTag(text, open, 0);
    if r.Some? {
      assert OpenTagAt(text, open, r.value.0);
    }
  }

  /** Whenever the full artifact's opening tag is complete, the result is defined and holds the artifact. */
  lemma FullTagIsFound(text: string, p: nat)
    requires OpenTagAt(text, OpenFull, p)
    ensures ExtractPendingStructuredComponents(text).Some?
    ensures ExtractPendingStructuredComponents(text).value.gristArtifactFull.Some?
  {
    RegionSpec(text, OpenFull, CloseFull);
  }

  /**
   * The incomplete update is reported only when no complete block exists, so
   * it is then the one and only update; every other entry is complete.
   */
  lemma IncompleteUpdateIsAlone(text: string)
    ensures IncompleteUpdate(text).Some? ==> Updates(text) == [IncompleteUpdate(text).value]
    ensures forall i :: 0 <= i < |Updates(text)| && !Updates(text)[i].isComplete ==> |Updates(text)| == 1
  {
    if IncompleteUpdate(text).Some? {
      var (p, start) := OpenTag(text, OpenUpdate, 0).value;
      OpenTagBounds(text, OpenUpdate, 0);
      IndexOfMissingLater(text, CloseUpdate, p, start);
      assert NextBlock(text, OpenUpdate, CloseUpdate, 0).None?;
    }
  }

  /**
   * The source's `undefined` comes back exactly when neither the full nor the
   * purpose opening tag matches anywhere and no update entry is produced.
   */
  lemma ExtractNoneIff(text: string)
    ensures ExtractPendingStructuredComponents(text).None? <==>
              (forall p :: !OpenTagAt(text, OpenFull, p)) && (forall p :: !OpenTagAt(text, OpenPurpose, p))
              && Updates(text) == []
  {
    RegionSpec(text, OpenFull, CloseFull);
    RegionSpec(text, OpenPurpose, ClosePurpose);
  }

  /** Every complete entry is flagged complete and its sub-tag texts hold no closing sub-tag. */
  lemma CompleteUpdatesShape(text: string)
    ensures forall i :: 0 <= i < |CompleteUpdates(text)| ==>
              CompleteUpdates(text)[i].isComplete
              && !Contains(CompleteUpdates(text)[i].instruction, CloseInstruction)
              && !Contains(CompleteUpdates(text)[i].updateDescription, CloseDescription)
    ensures IncompleteUpdate(text).Some? ==> !IncompleteUpdate(text).value.isComplete
  {
    var blocks := CompleteBlocks(text, OpenUpdate, CloseUpdate, 0);
    forall i | 0 <= i < |blocks|
      ensures !Contains(ParseComplete(blocks[i]).instruction, CloseInstruction)
      ensures !Contains(ParseComplete(blocks[i]).updateDescription, CloseDescription)
    {
      SubTagCompleteSpec(blocks[i], OpenInstruction, CloseInstruction);
      SubTagCompleteSpec(blocks[i], OpenDescription, CloseDescription);
    }
  }

  /**
   * Once an update opening tag matches, the update list is empty only in one
   * odd case: a closing update tag sits inside the opening tag itself (it
   * suppresses the incomplete entry, yet no block can end after the tag).
   */
  lemma UpdatesEmptyOnlyIfCloseInsideTag(text: string)
    requires OpenTag(text, OpenUpdate, 0).Some?
    ensures var (p, start) := OpenTag(text, OpenUpdate, 0).value;
            Updates(text) == [] <==> Includes(text, CloseUpdate, p) && !Includes(text, CloseUpdate, start)
  {
    var (p, start) := OpenTag(text, OpenUpdate, 0).value;
    OpenTagBounds(text, OpenUpdate, 0);
    var c := IndexOf(text, CloseUpdate, start);
    if c.Some? {
      IndexOfSpec(text, CloseUpdate, start);
      IncludesIff(text, CloseUpdate, p, c.value);
      assert NextBlock(text, OpenUpdate, CloseUpdate, 0).Some?;
      assert |CompleteBlocks(text, OpenUpdate, CloseUpdate, 0)| > 0;
    } else {
      assert CompleteBlocks(text, OpenUpdate, CloseUpdate, 0) == [];
    }
  }

  /** The leftmost opening tag does not move when text is appended. */
  lemma OpenTagExtend(text: string, t: string, open: string, from: nat)
    requires OpenTag(text, open, from).Some?
    ensures OpenTag(text + t, open, from) == OpenTag(text, open, from)
  {
    var p := IndexOf(text, open, from).value;
    IndexOfExtend(text, t, open, from);
    IndexOfExtend(text, t, ">", p + |open|);
  }

  /** The next block found in a text is found again, unchanged, in every extension of it. */
  lemma NextBlockExtend(text: string, t: string, open: string, close: string, from: nat)
    requires NextBlock(text, open, close, from).Some?
    ensures NextBlock(text + t, open, close, from) == NextBlock(text, open, close, from)
  {
    OpenTagExtend(text, t, open, from);
    IndexOfExtend(text, t, close, OpenTag(text, open, from).value.1);
  }

  /** Putting the same element in front keeps a prefix a prefix. */
  lemma ConsPrefix(x: string, xa: seq<string>, xb: seq<string>, a: seq<string>, b: seq<string>)
    requires xa == [x] + a && xb == [x] + b && a <= b
    ensures xa <= xb
  {
    assert ([x] + b)[..|a| + 1] == [x] + b[..|a|];
  }

  /** A text that starts with `text` finds the same next block as `text` does, whenever `text` finds one. */
  lemma NextBlockPrefix(text: string, ext: string, open: string, close: string, from: nat)
    requires text <= ext && NextBlock(text, open, close, from).Some?
    ensures NextBlock(ext, open, close, from) == NextBlock(text, open, close, from)
  {
    var t := ext[|text|..];
    assert text + t == ext;
    NextBlockExtend(text, t, open, close, from);
  }

  /**
   * One step of the scan driven by `next` at position `f` of `s`: no block when
   * `next` finds nothing, otherwise the text between the two positions it
   * reports, then the scan resumed `k` characters after the second.
   */
  ghost predicate ScanStepAt(next: (string, nat) -> Option<(nat, nat)>, blocks: (string, nat) -> seq<string>, k: nat, s: string, f: nat) {
    (next(s, f).None? ==> blocks(s, f) == [])
    && (next(s, f).Some? ==>
          f <= next(s, f).value.0 <= next(s, f).value.1 && next(s, f).value.1 + k <= |s|
          && blocks(s, f) == [s[next(s, f).value.0..next(s, f).value.1]] + blocks(s, next(s, f).value.1 + k))
  }

  /** `blocks` is the scan driven by `next`, at every text and position. */
  ghost predicate ScansBlocks(next: (string, nat) -> Option<(nat, nat)>, blocks: (string, nat) -> seq<string>, k: nat) {
    k > 0 && forall s: string, f: nat :: ScanStepAt(next, blocks, k, s, f)
  }

  /** What `next` finds in a text it finds unchanged in every text that starts with it. */
  ghost predicate StableUnderExtension(next: (string, nat) -> Option<(nat, nat)>) {
    forall text: string, ext: string, f: nat {:trigger next(text, f), next(ext, f)} ::
      text <= ext && next(text, f).Some? ==> next(ext, f) == next(text, f)
  }

  /** A scan whose steps are stable under extension only gains blocks at the end when the text grows. */
  lemma {:induction false} ScanPrefix(next: (string, nat) -> Option<(nat, nat)>, blocks: (string, nat) -> seq<string>,
                                      k: nat, text: string, ext: string, from: nat)
    requires ScansBlocks(next, blocks, k) && StableUnderExtension(next) && text <= ext
    ensures blocks(text, from) <= blocks(ext, from)
    decreases |text| - from
  {
    assert ScanStepAt(next, blocks, k, text, from);
    assert ScanStepAt(next, blocks, k, ext, from);
    if next(text, from).Some? {
      var (start, c) := next(text, from).value;
      assert next(ext, from) == next(text, from);
      assert ext[start..c] == text[start..c];
      ScanPrefix(next, blocks, k, text, ext, c + k);
      ConsPrefix(text[start..c], blocks(text, from), blocks(ext, from), blocks(text, c + k), blocks(ext, c + k));
    } else {
      assert blocks(text, from) == [];
    }
  }

  /** A step of the complete-block scan that finds a block. */
  lemma BlocksScanStepFound(next: (string, nat) -> Option<(nat, nat)>, blocks: (string, nat) -> seq<string>,
                            open: string, close: string, s: string, f: nat, start: nat, c: nat)
    requires next(s, f) == NextBlock(s, open, close, f) == Some((start, c))
    requires blocks(s, f) == CompleteBlocks(s, open, close, f)
    requires blocks(s, c + |close|) == CompleteBlocks(s, open, close, c + |close|)
    ensures ScanStepAt(next, blocks, |close|, s, f)
  {
    NextBlockBounds(s, open, close, f);
    CompleteBlocksStep(s, open, close, f, start, c);
  }

  /** A step of the complete-block scan that finds a block, read off the block search. */
  lemma BlocksScanStepSome(next: (string, nat) -> Option<(nat, nat)>, blocks: (string, nat) -> seq<string>,
                           open: string, close: string, s: string, f: nat)
    requires next(s, f) == NextBlock(s, open, close, f) && next(s, f).Some?
    requires forall g: nat {:trigger blocks(s, g)} :: blocks(s, g) == CompleteBlocks(s, open, close, g)
    ensures ScanStepAt(next, blocks, |close|, s, f)
  {
    var (start, c) := next(s, f).value;
    assert blocks(s, f) == CompleteBlocks(s, open, close, f);
    assert blocks(s, c + |close|) == CompleteBlocks(s, open, close, c + |close|);
    BlocksScanStepFound(next, blocks, open, close, s, f, start, c);
  }

  /** A step of the complete-block scan that finds nothing. */
  lemma BlocksScanStepNone(next: (string, nat) -> Option<(nat, nat)>, blocks: (string, nat) -> seq<string>,
                           open: string, close: string, s: string, f: nat)
    requires next(s, f) == NextBlock(s, open, close, f) && next(s, f).None?
    requires blocks(s, f) == CompleteBlocks(s, open, close, f)
    ensures ScanStepAt(next, blocks, |close|, s, f)
  {
  }

  /** One step of the complete-block scan. */
  lemma BlocksScanStepAt(next: (string, nat) -> Option<(nat, nat)>, blocks: (string, nat) -> seq<string>,
                         open: string, close: string, s: string, f: nat)
    requires next(s, f) == NextBlock(s, open, close, f)
    requires forall g: nat {:trigger blocks(s, g)} :: blocks(s, g) == CompleteBlocks(s, open, close, g)
    ensures ScanStepAt(next, blocks, |close|, s, f)
  {
    if next(s, f).Some? {
      BlocksScanStepSome(next, blocks, open, close, s, f);
    } else {
      BlocksScanStepNone(next, blocks, open, close, s, f);
    }
  }

  /** The complete-block scan is the scan driven by the block search. */
  lemma BlocksScan(next: (string, nat) -> Option<(nat, nat)>, blocks: (string, nat) -> seq<string>, open: string, close: string)
    requires |close| > 0
    requires forall s: string, f: nat {:trigger next(s, f)} :: next(s, f) == NextBlock(s, open, close, f)
    requires forall s: string, f: nat {:trigger blocks(s, f)} :: blocks(s, f) == CompleteBlocks(s, open, close, f)
    ensures ScansBlocks(next, blocks, |close|)
  {
    forall s: string, f: nat
      ensures ScanStepAt(next, blocks, |close|, s, f)
    {
      BlocksScanStepAt(next, blocks, open, close, s, f);
    }
  }

  /** The block search is stable under extension. */
  lemma BlocksScanStable(next: (string, nat) -> Option<(nat, nat)>, open: string, close: string)
    requires forall s: string, f: nat {:trigger next(s, f)} :: next(s, f) == NextBlock(s, open, close, f)
    ensures StableUnderExtension(next)
  {
    forall t: string, e: string, f: nat | t <= e && next(t, f).Some?
      ensures next(e, f) == next(t, f)
    {
      NextBlockPrefix(t, e, open, close, f);
    }
  }

  /** The complete blocks of a text are the first complete blocks of every text that starts with it. */
  lemma CompleteBlocksPrefix(text: string, ext: string, open: string, close: string, from: nat)
    requires text <= ext
    ensures CompleteBlocks(text, open, close, from) <= CompleteBlocks(ext, open, close, from)
  {
    if |close| == 0 {
      assert NextBlock(text, open, close, from).None?;
      assert CompleteBlocks(text, open, close, from) == [];
    } else {
      var next := (s: string, f: nat) => NextBlock(s, open, close, f);
      var blocks := (s: string, f: nat) => CompleteBlocks(s, open, close, f);
      BlocksScan(next, blocks, open, close);
      BlocksScanStable(next, open, close);
      ScanPrefix(next, blocks, |close|, text, ext, from);
    }
  }

  /** Appending text keeps every complete block and may only add blocks after them. */
  lemma CompleteBlocksExtend(text: string, t: string, open: string, close: string, from: nat)
    ensures CompleteBlocks(text, open, close, from) <= CompleteBlocks(text + t, open, close, from)
  {
    CompleteBlocksPrefix(text, text + t, open, close, from);
  }

  /** The complete updates of a text are the first complete updates of every extension of it. */
  lemma CompleteUpdatesExtend(text: string, t: string)
    ensures CompleteUpdates(text) <= CompleteUpdates(text + t)
  {
    CompleteBlocksExtend(text, t, OpenUpdate, CloseUpdate, 0);
    var a := CompleteUpdates(text);
    var b := CompleteUpdates(text + t);
    assert forall i :: 0 <= i < |a| ==> a[i] == b[i];
  }

  /**
   * No complete block holds its closing tag: the lazy group stops at the
   * first one.
   */
  lemma {:induction false} CompleteBlocksHaveNoClose(text: string, open: string, close: string, from: nat)
    ensures forall i :: 0 <= i < |CompleteBlocks(text, open, close, from)| ==>
              !Contains(CompleteBlocks(text, open, close, from)[i], close)
    decreases |text| - from
  {
    NextBlockBounds(text, open, close, from);
    match NextBlock(text, open, close, from)
    case None =>
    case Some((start, c)) =>
      SliceBeforeFirstHasNone(text, close, start, c);
      CompleteBlocksHaveNoClose(text, open, close, c + |close|);
  }

  /** `open attrs>` followed by anything: the tag matches at 0 and its content starts after the `>`. */
  lemma WrappedOpenTag(open: string, attrs: string, rest: string)
    requires forall k :: 0 <= k < |attrs| ==> attrs[k] != '>'
    ensures OpenTag(open + attrs + ">" + rest, open, 0) == Some((0, |open| + |attrs| + 1))
  {
    var text := open + attrs + ">" + rest;
    var g := |open| + |attrs|;
    assert text[..|open|] == open;
    assert MatchesAt(text, open, 0);
    forall j | |open| <= j < g
      ensures !MatchesAt(text, ">", j)
    {
      if MatchesAt(text, ">", j) {
        MatchesAtChar(text, ">", j, 0);
        assert false;
      }
    }
    assert text[g..g + 1] == ">";
    IndexOfIs(text, ">", |open|, g);
  }

  /** `pat` occurs in `a + pat + b` just after `a`. */
  lemma MatchesAfter(a: string, pat: string, b: string)
    ensures MatchesAt(a + pat + b, pat, |a|)
  {
    assert (a + pat + b)[|a|..|a| + |pat|] == pat;
  }

  /** Where the text holds no `<`, no tag can start. */
  lemma NoTagAt(text: string, pat: string, j: nat)
    requires |pat| > 0 && pat[0] == '<' && j < |text| && text[j] != '<'
    ensures !MatchesAt(text, pat, j)
  {
    if j + |pat| <= |text| {
      assert text[j..j + |pat|][0] == text[j];
    }
  }

  /** Where the tags of the first block of the two-block example lie. */
  lemma FirstOfTwoBlocksTags(text: string)
    requires text == OpenUpdate + " a>x" + CloseUpdate + (OpenUpdate + ">y" + CloseUpdate)
    ensures FirstOpenTag(text, OpenUpdate, 0, 0) && FirstFrom(text, ">", 22, 24)
    ensures FirstFrom(text, CloseUpdate, 25, 26) && text[25..26] == "x"
  {
    MatchesAfter("", OpenUpdate, " a>x" + CloseUpdate + (OpenUpdate + ">y" + CloseUpdate));
    assert text[24..25] == ">";
    assert text[22] == ' ' && text[23] == 'a';
    IncludesIff(text, ">", 22, 24);
    MatchesAfter(OpenUpdate + " a>x", CloseUpdate, OpenUpdate + ">y" + CloseUpdate);
    assert text[25] == 'x';
    NoTagAt(text, CloseUpdate, 25);
  }

  /** The first update block of the two-block example: `x`, behind an attribute. */
  lemma FirstOfTwoBlocks(text: string)
    requires text == OpenUpdate + " a>x" + CloseUpdate + (OpenUpdate + ">y" + CloseUpdate)
    ensures CompleteBlocks(text, OpenUpdate, CloseUpdate, 0) == ["x"] + CompleteBlocks(text, OpenUpdate, CloseUpdate, 50)
  {
    FirstOfTwoBlocksTags(text);
    CompleteBlocksFound(text, OpenUpdate, CloseUpdate, 0, 0, 24, 26);
  }

  /** Where the tags of the second block of the two-block example lie. */
  lemma SecondOfTwoBlocksTags(text: string)
    requires text == OpenUpdate + " a>x" + CloseUpdate + (OpenUpdate + ">y" + CloseUpdate)
    ensures |text| == 98
    ensures FirstOpenTag(text, OpenUpdate, 50, 50) && FirstFrom(text, ">", 72, 72)
    ensures FirstFrom(text, CloseUpdate, 73, 74) && text[73..74] == "y"
  {
    var first := OpenUpdate + " a>x" + CloseUpdate;
    MatchesAfter(first, OpenUpdate, ">y" + CloseUpdate);
    assert text[72..73] == ">";
    IncludesIff(text, ">", 72, 72);
    MatchesAfter(first + OpenUpdate + ">y", CloseUpdate, "");
    assert text[73] == 'y';
    NoTagAt(text, CloseUpdate, 73);
  }

  /** The second update block of the two-block example: `y`, after which the scan ends. */
  lemma SecondOfTwoBlocks(text: string)
    requires text == OpenUpdate + " a>x" + CloseUpdate + (OpenUpdate + ">y" + CloseUpdate)
    ensures CompleteBlocks(text, OpenUpdate, CloseUpdate, 50) == ["y"]
  {
    SecondOfTwoBlocksTags(text);
    CompleteBlocksFound(text, OpenUpdate, CloseUpdate, 50, 50, 72, 74);
    assert CompleteBlocks(text, OpenUpdate, CloseUpdate, 98) == [];
  }

  /**
   * Two blocks in a row, the first with an attribute: `matchAll` reports
   * both contents, in order.
   */
  lemma TwoBlocksExample()
    ensures CompleteBlocks(OpenUpdate + " a>x" + CloseUpdate + OpenUpdate + ">y" + CloseUpdate, OpenUpdate, CloseUpdate, 0)
            == ["x", "y"]
  {
    var text := OpenUpdate + " a>x" + CloseUpdate + (OpenUpdate + ">y" + CloseUpdate);
    assert OpenUpdate + " a>x" + CloseUpdate + OpenUpdate + ">y" + CloseUpdate == text;
    FirstOfTwoBlocks(text);
    SecondOfTwoBlocks(text);
  }

  /** `<grist_artifact_update><instruction>ab` holds no closing update tag: it has no `/`. */
  lemma UnfinishedUpdateUnclosed(text: string)
    requires text == OpenUpdate + ">" + (OpenInstruction + "ab")
    ensures NoneFrom(text, CloseUpdate, 0)
  {
    assert '/' !in OpenUpdate;
    forall j | 0 <= j
      ensures !MatchesAt(text, CloseUpdate, j)
    {
      if j + |CloseUpdate| <= |text| {
        assert text[j + 1] == OpenUpdate[j + 1];
        if MatchesAt(text, CloseUpdate, j) {
          MatchesAtChar(text, CloseUpdate, j, 1);
          assert false;
        }
      }
    }
  }

  /** Where the tags of `<grist_artifact_update><instruction>ab` lie. */
  lemma UnfinishedUpdateTags(text: string)
    requires text == OpenUpdate + ">" + (OpenInstruction + "ab")
    ensures FirstOpenTag(text, OpenUpdate, 0, 0) && FirstFrom(text, ">", 22, 22)
    ensures text[23..] == OpenInstruction + "ab"
  {
    MatchesAfter("", OpenUpdate, ">" + (OpenInstruction + "ab"));
    assert text[22..23] == ">";
    IncludesIff(text, ">", 22, 22);
  }

  /**
   * An unfinished update, `<grist_artifact_update><instruction>ab`: its
   * instruction runs to the end of the text, its description is empty, and
   * it is flagged incomplete.
   */
  lemma UnfinishedUpdateExample()
    ensures IncompleteUpdate(OpenUpdate + "><instruction>ab") == Some(ArtifactUpdate("ab", "", false))
  {
    var text := OpenUpdate + ">" + (OpenInstruction + "ab");
    assert OpenUpdate + "><instruction>ab" == text;
    UnfinishedUpdateTags(text);
    UnfinishedUpdateUnclosed(text);
    IncompleteUpdateFound(text, 0, 22);
    var content := OpenInstruction + "ab";
    MatchesAfter("", OpenInstruction, "ab");
    assert FirstFrom(content, OpenInstruction, 0, 0);
    SubTagLenientUnclosed(content, OpenInstruction, CloseInstruction, 0);
    assert content[13..] == "ab";
    SubTagLenientNoOpen(content, OpenDescription, CloseDescription);
  }

  /** After a prefix `a`, the first closing tag is the one that ends `x + close`. */
  lemma FirstCloseAfter(a: string, x: string, close: string)
    requires forall j :: 0 <= j < |x| ==> !MatchesAt(x + close, close, j)
    ensures IndexOf(a + (x + close), close, |a|) == Some(|a| + |x|)
    ensures MatchesAt(a + (x + close), close, |a| + |x|)
  {
    MatchesAtShift(a, x + close, close, |x|);
    assert (x + close)[|x|..|x| + |close|] == close;
    forall j | |a| <= j < |a| + |x|
      ensures !MatchesAt(a + (x + close), close, j)
    {
      MatchesAtShift(a, x + close, close, j - |a|);
    }
    IndexOfIs(a + (x + close), close, |a|, |a| + |x|);
  }

  /** A region whose closing tag follows its content start is complete and holds the text in between. */
  lemma ClosedRegionIs(text: string, open: string, close: string, p: nat, start: nat, c: nat)
    requires OpenTag(text, open, 0) == Some((p, start))
    requires IndexOf(text, close, start) == Some(c)
    ensures start <= c <= |text|
    ensures Region(text, open, close) == Some(ExtractedArtifact(text[start..c], true))
  {
    IndexOfBounds(text, close, start);
    IndexOfSpec(text, close, start);
    IncludesIff(text, close, 0, c);
  }

  /**
   * `<open attrs>x</close>` yields the content `x`, complete, whenever `attrs`
   * holds no `>` and `x` holds no closing tag (not even one finished by the
   * closing tag itself).
   */
  lemma RegionOfWrappedTag(open: string, close: string, attrs: string, x: string)
    requires forall k :: 0 <= k < |attrs| ==> attrs[k] != '>'
    requires forall j :: 0 <= j < |x| ==> !MatchesAt(x + close, close, j)
    ensures Region(open + attrs + ">" + x + close, open, close) == Some(ExtractedArtifact(x, true))
  {
    var a := open + attrs + ">";
    var text := a + (x + close);
    assert open + attrs + ">" + x + close == text;
    WrappedOpenTag(open, attrs, x + close);
    FirstCloseAfter(a, x, close);
    ClosedRegionIs(text, open, close, 0, |a|, |a| + |x|);
    assert text[|a|..|a| + |x|] == x;
  }

  /** The literal case: `<grist_artifact_full>X</grist_artifact_full>` gives `X`, complete. */
  lemma FullArtifactExample()
    ensures Region(OpenFull + ">X" + CloseFull, OpenFull, CloseFull) == Some(ExtractedArtifact("X", true))
  {
    forall j | 0 <= j < 1
      ensures !MatchesAt("X" + CloseFull, CloseFull, j)
    {
      if MatchesAt("X" + CloseFull, CloseFull, j) {
        MatchesAtChar("X" + CloseFull, CloseFull, j, 0);
        assert false;
      }
    }
    RegionOfWrappedTag(OpenFull, CloseFull, "", "X");
    assert OpenFull + "" + ">" + "X" + CloseFull == OpenFull + ">X" + CloseFull;
  }

  /** Once the closing tag follows the content start, appending text never changes the region. */
  lemma RegionFixedOnceClosed(text: string, t: string, open: string, close: string)
    requires RegionClosed(text, open, close)
    ensures RegionClosed(text + t, open, close)
    ensures Region(text + t, open, close) == Region(text, open, close)
  {
    var start := OpenTag(text, open, 0).value.1;
    OpenTagBounds(text, open, 0);
    OpenTagExtend(text, t, open, 0);
    IndexOfSpec(text, close, start);
    IncludesIff(text, close, 0, IndexOf(text, close, start).value);
    IndexOfExtend(text, t, close, start);
    IndexOfExtend(text, t, close, 0);
    var e := ContentEnd(text, close, start);
    ContentEndBounds(text, close, start);
    assert (text + t)[start..e] == text[start..e];
  }

  /** An open region's content runs to the end of the text. */
  lemma OpenRegionContent(text: string, open: string, close: string)
    requires Region(text, open, close).Some? && !RegionClosed(text, open, close)
    ensures OpenTag(text, open, 0).value.1 <= |text|
    ensures Region(text, open, close).value.content == text[OpenTag(text, open, 0).value.1..]
  {
    OpenTagBounds(text, open, 0);
  }

  /**
   * A region that exists stays, and its new content is a prefix of the old
   * content followed by the appended text.
   */
  lemma RegionGrowsWithinAppended(text: string, t: string, open: string, close: string)
    requires Region(text, open, close).Some?
    ensures Region(text + t, open, close).Some?
    ensures Region(text + t, open, close).value.content <= Region(text, open, close).value.content + t
  {
    var start := OpenTag(text, open, 0).value.1;
    OpenTagExtend(text, t, open, 0);
    if RegionClosed(text, open, close) {
      RegionFixedOnceClosed(text, t, open, close);
    } else {
      OpenRegionContent(text, open, close);
      var e := ContentEnd(text + t, close, start);
      ContentEndBounds(text + t, close, start);
      assert text[start..] + t == (text + t)[start..];
      assert (text + t)[start..e] == (text + t)[start..][..e - start];
    }
  }

  /**
   * While the region is open, its content only grows, unless a closing tag
   * that begins inside the old text is completed by the appended text.
   */
  lemma RegionGrowsUnlessSplitClose(text: string, t: string, open: string, close: string)
    requires Region(text, open, close).Some? && !RegionClosed(text, open, close)
    requires var start := OpenTag(text, open, 0).value.1;
             forall j :: start <= j < |text| ==> !MatchesAt(text + t, close, j)
    ensures Region(text + t, open, close).Some?
    ensures Region(text, open, close).value.content <= Region(text + t, open, close).value.content
  {
    var start := OpenTag(text, open, 0).value.1;
    OpenTagExtend(text, t, open, 0);
    OpenRegionContent(text, open, close);
    IndexOfSpec(text + t, close, start);
    var e := ContentEnd(text + t, close, start);
    ContentEndBounds(text + t, close, start);
    assert e >= |text|;
    assert (text + t)[start..e][..|text| - start] == (text + t)[start..|text|];
    assert (text + t)[start..|text|] == text[start..];
  }

  /** `open>` then `body`, with no closing tag anywhere in `body`: the content is all of `body`. */
  lemma UnclosedRegion(open: string, close: string, body: string)
    requires forall j :: 0 <= j ==> !MatchesAt(body, close, j)
    ensures Region(open + ">" + body, open, close).Some?
    ensures Region(open + ">" + body, open, close).value.content == body
  {
    var a := open + ">";
    var text := a + body;
    assert open + "" + ">" + body == text;
    WrappedOpenTag(open, "", body);
    forall j | |a| <= j
      ensures !MatchesAt(text, close, j)
    {
      MatchesAtShift(a, body, close, j - |a|);
    }
    IndexOfIsNone(text, close, |a|);
    assert text[|a|..] == body;
  }

  /**
   * A closing tag split across two chunks makes the content SHRINK: before the
   * second chunk the partial closing tag is part of the content, after it the
   * content stops before the tag. So an unfinished region's content is not
   * always a prefix of its later content.
   */
  lemma SplitClosingTagShrinksContent(open: string, close: string, x: string, k: nat)
    requires 0 < k < |close|
    requires forall j :: 0 <= j < |x| ==> !MatchesAt(x + close, close, j)
    ensures Region(open + ">" + (x + close[..k]), open, close).value.content == x + close[..k]
    ensures Region(open + ">" + (x + close[..k]) + close[k..], open, close).value.content == x
  {
    var body := x + close[..k];
    assert body + close[k..] == x + close;
    assert open + ">" + body + close[k..] == open + "" + ">" + x + close;
    RegionOfWrappedTag(open, close, "", x);
    forall j | 0 <= j
      ensures !MatchesAt(body, close, j)
    {
      if MatchesAt(body, close, j) {
        MatchesAtExtend(body, close[k..], close, j);
        assert false;
      }
    }
    UnclosedRegion(open, close, body);
  }

  /**
   * The completeness flag looks for the closing tag anywhere: a closing tag
   * BEFORE the opening one marks an unterminated region complete.
   */
  lemma ClosingTagBeforeOpeningCounts(open: string, close: string, body: string)
    requires IndexOf(close + open, open, 0) == Some(|close|)
    requires forall j :: 0 <= j ==> !MatchesAt(body, close, j)
    ensures Region(close + open + ">" + body, open, close) == Some(ExtractedArtifact(body, true))
    ensures !RegionClosed(close + open + ">" + body, open, close)
  {
    var a := close + open + ">";
    var text := a + body;
    assert close + open + ">" + body == text;
    assert text == (close + open) + (">" + body);
    IndexOfExtend(close + open, ">" + body, open, 0);
    assert text[|close| + |open|..|close| + |open| + 1] == ">";
    assert MatchesAt(text, ">", |close| + |open|);
    assert OpenTag(text, open, 0) == Some((|close|, |a|));
    forall j | |a| <= j
      ensures !MatchesAt(text, close, j)
    {
      MatchesAtShift(a, body, close, j - |a|);
    }
    IndexOfIsNone(text, close, |a|);
    assert text[|a|..|text|] == body;
    assert text[0..|close|] == close;
    IncludesIff(text, close, 0, 0);
    assert Contains(text, close);
    assert ContentEnd(text, close, |a|) == |text|;
    assert Region(text, open, close) == Some(ExtractedArtifact(text[|a|..|text|], true));
  }
}
