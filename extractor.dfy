/**
 * The structured-component extractor of the AI router: it re-scans the
 * growing model output for the `<grist_artifact_full>`,
 * `<grist_artifact_update>` and `<grist_artifact_purpose>` pseudo-XML tags.
 *
 * Each regular expression of the source is written out as index searches:
 *   - `<name[^>]*>` matches where the tag name occurs and some `>` follows it;
 *     the match ends just after the FIRST `>` after the tag name;
 *   - a lazy `([\s\S]*?)` followed by `(?:close|$)` runs to the first
 *     closing tag at or after the content start, else to the end of the text;
 *   - a lazy `([\s\S]*?)` followed by `close` alone runs to the first closing
 *     tag, and the match fails when there is none.
 */
module Extractor {
  import opened Wrappers
  import opened Text

  const OpenFull: string := "<grist_artifact_full"
  const CloseFull: string := "</grist_artifact_full>"
  const OpenUpdate: string := "<grist_artifact_update"
  const CloseUpdate: string := "</grist_artifact_update>"
  const OpenPurpose: string := "<grist_artifact_purpose"
  const ClosePurpose: string := "</grist_artifact_purpose>"
  const OpenInstruction: string := "<instruction>"
  const CloseInstruction: string := "</instruction>"
  const OpenDescription: string := "<update_description>"
  const CloseDescription: string := "</update_description>"

  /** The prefix shared by the three opening tags. */
  const TagPrefix: string := "<grist_artifact_"

  datatype ExtractedArtifact = ExtractedArtifact(content: string, isComplete: bool)

  datatype ArtifactUpdate = ArtifactUpdate(instruction: string, updateDescription: string, isComplete: bool)

  /** The result record; a None field is a key the source leaves unset. */
  datatype ExtractedComponents = ExtractedComponents(
    gristArtifactFull: Option<ExtractedArtifact>,
    gristArtifactUpdates: Option<seq<ArtifactUpdate>>,
    gristArtifactPurpose: Option<ExtractedArtifact>)

  /** `open[^>]*>` can match at `p`: the tag name occurs there and a `>` follows it. */
  predicate OpenTagAt(text: string, open: string, p: nat) {
    MatchesAt(text, open, p) && Includes(text, ">", p + |open|)
  }

  /**
   * The first match of `open[^>]*>` starting at or after `from`: its start
   * and the index just past its `>`, where the tag's content begins
   * (OpenTagBounds, OpenTagLeftmost).
   */
  function OpenTag(text: string, open: string, from: nat): Option<(nat, nat)> {
    match IndexOf(text, open, from)
    case None => None
    case Some(p) =>
      match IndexOf(text, ">", p + |open|)
      case None => None
      case Some(g) => Some((p, g + 1))
  }

  /** The match lies at or after `from`, and its `>` follows the tag name inside the text. */
  lemma OpenTagBounds(text: string, open: string, from: nat)
    ensures var r := OpenTag(text, open, from);
            r.Some? ==> from <= r.value.0 && r.value.0 + |open| < r.value.1 <= |text|
  {
    IndexOfBounds(text, open, from);
    match IndexOf(text, open, from)
    case None =>
    case Some(p) => IndexOfBounds(text, ">", p + |open|);
  }

  /**
   * OpenTag is the regular expression's match: the pattern matches at the
   * start it reports, the content begins after the first `>` that follows the
   * tag name, and the pattern matches nowhere between `from` and that start.
   */
  lemma OpenTagLeftmost(text: string, open: string, from: nat)
    ensures var r := OpenTag(text, open, from);
            r.Some? ==> OpenTagAt(text, open, r.value.0)
                        && r.value.1 == IndexOf(text, ">", r.value.0 + |open|).value + 1
    ensures var r := OpenTag(text, open, from);
            forall q :: from <= q && (r.None? || q < r.value.0) ==> !OpenTagAt(text, open, q)
  {
    IndexOfSpec(text, open, from);
    match IndexOf(text, open, from)
    case None =>
    case Some(p) =>
      match IndexOf(text, ">", p + |open|)
      case None => IndexOfMissingAll(text, ">", p + |open|);
      case Some(g) =>
  }

  /** `p` is the leftmost match of `open[^>]*>` at or after `from`. */
  predicate FirstOpenTag(text: string, open: string, from: nat, p: nat) {
    from <= p && OpenTagAt(text, open, p) && forall q :: from <= q < p ==> !OpenTagAt(text, open, q)
  }

  /** `open[^>]*>` matches nowhere at or after `from`. */
  ghost predicate NoOpenTagFrom(text: string, open: string, from: nat) {
    forall q :: from <= q ==> !OpenTagAt(text, open, q)
  }

  /**
   * The leftmost match at `p`, whose first `>` after the tag name is at `g`,
   * is what OpenTag reports.
   */
  lemma OpenTagIs(text: string, open: string, from: nat, p: nat, g: nat)
    requires FirstOpenTag(text, open, from, p) && FirstFrom(text, ">", p + |open|, g)
    ensures OpenTag(text, open, from) == Some((p, g + 1))
  {
    OpenTagLeftmost(text, open, from);
    OpenTagBounds(text, open, from);
    var r := OpenTag(text, open, from);
    assert r.Some? && r.value.0 == p by {
      assert OpenTagAt(text, open, p);
      if r.Some? {
        assert OpenTagAt(text, open, r.value.0);
      }
    }
    IndexOfIs(text, ">", p + |open|, g);
  }

  /** Where the opening pattern matches nowhere, OpenTag reports nothing. */
  lemma OpenTagIsNone(text: string, open: string, from: nat)
    requires NoOpenTagFrom(text, open, from)
    ensures OpenTag(text, open, from).None?
  {
    OpenTagLeftmost(text, open, from);
    OpenTagBounds(text, open, from);
  }

  /** Where `([\s\S]*?)(?:close|$)` stops when the content begins at `start`. */
  function ContentEnd(text: string, close: string, start: nat): nat {
    match IndexOf(text, close, start)
    case Some(c) => c
    case None => |text|
  }

  /** The content ends at the first closing tag, or at the end of the text. */
  lemma ContentEndBounds(text: string, close: string, start: nat)
    requires start <= |text|
    ensures start <= ContentEnd(text, close, start) <= |text|
  {
    IndexOfBounds(text, close, start);
  }

  /**
   * `text.match(/open[^>]*>([\s\S]*?)(?:close|$)/)` with the completeness flag
   * `text.includes(close)`: the shape shared by the full artifact and the purpose.
   */
  function Region(text: string, open: string, close: string): Option<ExtractedArtifact> {
    match OpenTag(text, open, 0)
    case None => None
    case Some((p, start)) =>
      OpenTagBounds(text, open, 0);
      ContentEndBounds(text, close, start);
      Some(ExtractedArtifact(text[start..ContentEnd(text, close, start)], Contains(text, close)))
  }

  /** The region exists and its closing tag occurs after its content start. */
  predicate RegionClosed(text: string, open: string, close: string) {
    OpenTag(text, open, 0).Some? && Includes(text, close, OpenTag(text, open, 0).value.1)
  }

  /**
   * The next match of `/open[^>]*>([\s\S]*?)close/g` from index `from`: where
   * its content starts and where its closing tag starts. (The tags here are
   * never empty; an empty closing tag ends the scan.)
   */
  function NextBlock(text: string, open: string, close: string, from: nat): Option<(nat, nat)> {
    if |close| == 0 then None
    else
      match OpenTag(text, open, from)
      case None => None
      case Some((p, start)) =>
        match IndexOf(text, close, start)
        case None => None
        case Some(c) => Some((start, c))
  }

  /** The next block lies after `from`, its content before its closing tag, the whole tag inside the text. */
  lemma NextBlockBounds(text: string, open: string, close: string, from: nat)
    ensures var r := NextBlock(text, open, close, from);
            r.Some? ==> |close| > 0 && from <= r.value.0 <= r.value.1 && r.value.1 + |close| <= |text|
    ensures var r := NextBlock(text, open, close, from);
            r.Some? ==> IndexOf(text, close, r.value.0) == Some(r.value.1)
  {
    OpenTagBounds(text, open, from);
    match OpenTag(text, open, from)
    case None =>
    case Some((p, start)) => IndexOfBounds(text, close, start);
  }

  /** The contents of the successive matches that `matchAll` finds from index `from`. */
  function CompleteBlocks(text: string, open: string, close: string, from: nat): seq<string>
    decreases |text| - from
  {
    match NextBlock(text, open, close, from)
    case None => []
    case Some((start, c)) =>
      NextBlockBounds(text, open, close, from);
      [text[start..c]] + CompleteBlocks(text, open, close, c + |close|)
  }

  /** One step of the scan: the block NextBlock finds, then the scan resumed after its closing tag. */
  lemma CompleteBlocksStep(text: string, open: string, close: string, from: nat, start: nat, c: nat)
    requires NextBlock(text, open, close, from) == Some((start, c))
    ensures start <= c <= |text|
    ensures CompleteBlocks(text, open, close, from) == [text[start..c]] + CompleteBlocks(text, open, close, c + |close|)
  {
    NextBlockBounds(text, open, close, from);
    assert NextBlock(text, open, close, from).Some?;
  }

  /**
   * `matchAll` takes the leftmost opening tag at or after `from`, whose first
   * `>` is at `g`; the block's text runs from after that `>` to the first
   * closing tag after it, and the scan resumes just past that closing tag.
   */
  lemma CompleteBlocksFound(text: string, open: string, close: string, from: nat, p: nat, g: nat, c: nat)
    requires |close| > 0
    requires FirstOpenTag(text, open, from, p) && FirstFrom(text, ">", p + |open|, g)
    requires FirstFrom(text, close, g + 1, c)
    ensures g + 1 <= c && c + |close| <= |text|
    ensures CompleteBlocks(text, open, close, from) == [text[g + 1..c]] + CompleteBlocks(text, open, close, c + |close|)
  {
    OpenTagIs(text, open, from, p, g);
    IndexOfIs(text, close, g + 1, c);
    CompleteBlocksStep(text, open, close, from, g + 1, c);
  }

  /**
   * With no closing tag after the leftmost opening tag's `>`, no further
   * block is found (a later opening tag has its content later still).
   */
  lemma CompleteBlocksUnclosed(text: string, open: string, close: string, from: nat, p: nat, g: nat)
    requires FirstOpenTag(text, open, from, p) && FirstFrom(text, ">", p + |open|, g)
    requires NoneFrom(text, close, g + 1)
    ensures CompleteBlocks(text, open, close, from) == []
  {
    OpenTagIs(text, open, from, p, g);
    IndexOfIsNone(text, close, g + 1);
  }

  /** With no opening tag at or after `from`, no further block is found. */
  lemma CompleteBlocksNoOpen(text: string, open: string, close: string, from: nat)
    requires NoOpenTagFrom(text, open, from)
    ensures CompleteBlocks(text, open, close, from) == []
  {
    OpenTagIsNone(text, open, from);
  }

  /** The text between `start` and the first `close` after it holds no `close`. */
  lemma SliceBeforeFirstHasNone(text: string, close: string, start: nat, c: nat)
    requires |close| > 0 && IndexOf(text, close, start) == Some(c)
    ensures start <= c <= |text|
    ensures !Contains(text[start..c], close)
  {
    IndexOfBounds(text, close, start);
    var r := IndexOf(text[start..c], close, 0);
    if r.Some? {
      IndexOfSpec(text[start..c], close, 0);
      IndexOfSpec(text, close, start);
      MatchesAtSlice(text, start, c, close, r.value);
      assert false;
    }
  }

  /** `content.match(/open([\s\S]*?)close/)?.[1]`, or "" when it does not match. */
  function SubTagComplete(content: string, open: string, close: string): string {
    match IndexOf(content, open, 0)
    case None => ""
    case Some(p) =>
      match IndexOf(content, close, p + |open|)
      case None => ""
      case Some(c) =>
        IndexOfBounds(content, close, p + |open|);
        content[p + |open|..c]
  }

  /**
   * The complete form finds nothing without both tags, and what it finds
   * never holds the closing tag.
   */
  lemma SubTagCompleteSpec(content: string, open: string, close: string)
    requires |close| > 0
    ensures !Contains(content, open) ==> SubTagComplete(content, open, close) == ""
    ensures !Contains(content, close) ==> SubTagComplete(content, open, close) == ""
    ensures !Contains(SubTagComplete(content, open, close), close)
  {
    match IndexOf(content, open, 0)
    case None =>
    case Some(p) =>
      match IndexOf(content, close, p + |open|)
      case None =>
      case Some(c) =>
        SliceBeforeFirstHasNone(content, close, p + |open|, c);
        IndexOfSpec(content, close, p + |open|);
        IncludesIff(content, close, 0, c);
  }

  /**
   * The complete form takes the text from the first opening tag to the first
   * closing tag after it.
   */
  lemma SubTagCompleteFound(content: string, open: string, close: string, p: nat, c: nat)
    requires FirstFrom(content, open, 0, p) && FirstFrom(content, close, p + |open|, c)
    ensures p + |open| <= c <= |content|
    ensures SubTagComplete(content, open, close) == content[p + |open|..c]
  {
    IndexOfIs(content, open, 0, p);
    IndexOfIs(content, close, p + |open|, c);
    SubTagCompleteAt(content, open, close, p, c);
  }

  /** The complete form in terms of the two searches that find its tags. */
  lemma SubTagCompleteAt(content: string, open: string, close: string, p: nat, c: nat)
    requires IndexOf(content, open, 0) == Some(p) && IndexOf(content, close, p + |open|) == Some(c)
    requires p + |open| <= c <= |content|
    ensures SubTagComplete(content, open, close) == content[p + |open|..c]
  {
  }

  /** Without a closing tag after the first opening tag, the complete form finds nothing. */
  lemma SubTagCompleteUnclosed(content: string, open: string, close: string, p: nat)
    requires FirstFrom(content, open, 0, p) && NoneFrom(content, close, p + |open|)
    ensures SubTagComplete(content, open, close) == ""
  {
    IndexOfIs(content, open, 0, p);
    IndexOfIsNone(content, close, p + |open|);
  }

  /** `content.match(/open([\s\S]*?)(?:close|$)/)?.[1]`, or "" when the open tag is absent. */
  function SubTagLenient(content: string, open: string, close: string): string {
    match IndexOf(content, open, 0)
    case None => ""
    case Some(p) =>
      IndexOfBounds(content, open, 0);
      ContentEndBounds(content, close, p + |open|);
      content[p + |open|..ContentEnd(content, close, p + |open|)]
  }

  /**
   * The lenient form stops at the first closing tag after the opening tag,
   * like the complete form.
   */
  lemma SubTagLenientClosed(content: string, open: string, close: string, p: nat, c: nat)
    requires FirstFrom(content, open, 0, p) && FirstFrom(content, close, p + |open|, c)
    ensures p + |open| <= c <= |content|
    ensures SubTagLenient(content, open, close) == content[p + |open|..c]
  {
    IndexOfIs(content, open, 0, p);
    IndexOfIs(content, close, p + |open|, c);
    SubTagLenientAt(content, open, close, p, c);
  }

  /** The lenient form in terms of the two searches that find its tags. */
  lemma SubTagLenientAt(content: string, open: string, close: string, p: nat, c: nat)
    requires IndexOf(content, open, 0) == Some(p) && IndexOf(content, close, p + |open|) == Some(c)
    requires p + |open| <= c <= |content|
    ensures SubTagLenient(content, open, close) == content[p + |open|..c]
  {
    assert ContentEnd(content, close, p + |open|) == c;
  }

  /**
   * Without a closing tag after the opening tag, the lenient form runs from
   * the opening tag to the end of the content.
   */
  lemma SubTagLenientUnclosed(content: string, open: string, close: string, p: nat)
    requires FirstFrom(content, open, 0, p) && NoneFrom(content, close, p + |open|)
    ensures p + |open| <= |content|
    ensures SubTagLenient(content, open, close) == content[p + |open|..]
  {
    IndexOfIs(content, open, 0, p);
    IndexOfIsNone(content, close, p + |open|);
  }

  /** Without the opening tag, the lenient form finds nothing. */
  lemma SubTagLenientNoOpen(content: string, open: string, close: string)
    requires NoneFrom(content, open, 0)
    ensures SubTagLenient(content, open, close) == ""
  {
    IndexOfIsNone(content, open, 0);
  }

  /** The update record built from a complete block. */
  function ParseComplete(content: string): ArtifactUpdate {
    ArtifactUpdate(
      SubTagComplete(content, OpenInstruction, CloseInstruction),
      SubTagComplete(content, OpenDescription, CloseDescription),
      true)
  }

  /** The update record built from the tail of an unfinished block. */
  function ParseIncomplete(content: string): ArtifactUpdate {
    ArtifactUpdate(
      SubTagLenient(content, OpenInstruction, CloseInstruction),
      SubTagLenient(content, OpenDescription, CloseDescription),
      false)
  }

  /**
   * The incomplete update: the leftmost match of
   * `/<grist_artifact_update[^>]*>([\s\S]*?)$/`, kept only when
   * `</grist_artifact_update>` does not occur at or after its start.
   */
  function IncompleteUpdate(text: string): Option<ArtifactUpdate> {
    match OpenTag(text, OpenUpdate, 0)
    case None => None
    case Some((p, start)) =>
      if Includes(text, CloseUpdate, p) then None
      else
        OpenTagBounds(text, OpenUpdate, 0);
        Some(ParseIncomplete(text[start..]))
  }

  /**
   * The unfinished update: with the leftmost opening tag at `p`, its first
   * `>` at `g` and no closing update tag from `p` on, the entry is parsed
   * from everything after that `>`.
   */
  lemma IncompleteUpdateFound(text: string, p: nat, g: nat)
    requires FirstOpenTag(text, OpenUpdate, 0, p) && FirstFrom(text, ">", p + |OpenUpdate|, g)
    requires NoneFrom(text, CloseUpdate, p)
    ensures g + 1 <= |text|
    ensures IncompleteUpdate(text) == Some(ParseIncomplete(text[g + 1..]))
  {
    OpenTagIs(text, OpenUpdate, 0, p, g);
    IndexOfIsNone(text, CloseUpdate, p);
    OpenTagBounds(text, OpenUpdate, 0);
    IncompleteUpdateAt(text, p, g + 1);
  }

  /** The unfinished update in terms of the searches that decide it. */
  lemma IncompleteUpdateAt(text: string, p: nat, start: nat)
    requires OpenTag(text, OpenUpdate, 0) == Some((p, start)) && IndexOf(text, CloseUpdate, p).None?
    requires start <= |text|
    ensures IncompleteUpdate(text) == Some(ParseIncomplete(text[start..]))
  {
  }

  /** A closing update tag at or after the leftmost opening tag suppresses the unfinished update. */
  lemma IncompleteUpdateClosed(text: string, p: nat, c: nat)
    requires FirstOpenTag(text, OpenUpdate, 0, p) && p <= c && MatchesAt(text, CloseUpdate, c)
    ensures IncompleteUpdate(text).None?
  {
    OpenTagLeftmost(text, OpenUpdate, 0);
    IncludesIff(text, CloseUpdate, p, c);
  }

  /** Without an opening update tag there is no unfinished update. */
  lemma IncompleteUpdateNoOpen(text: string)
    requires NoOpenTagFrom(text, OpenUpdate, 0)
    ensures IncompleteUpdate(text).None?
  {
    OpenTagIsNone(text, OpenUpdate, 0);
  }

  /** One complete update per complete block, in order of appearance. */
  function CompleteUpdates(text: string): seq<ArtifactUpdate> {
    var blocks := CompleteBlocks(text, OpenUpdate, CloseUpdate, 0);
    seq(|blocks|, i requires 0 <= i < |blocks| => ParseComplete(blocks[i]))
  }

  /** Every complete update, then the incomplete update if there is one. */
  function Updates(text: string): seq<ArtifactUpdate> {
    CompleteUpdates(text) + match IncompleteUpdate(text) case None => [] case Some(u) => [u]
  }

  /** `extractPendingStructuredComponents`: None stands for the source's `undefined`. */
  function ExtractPendingStructuredComponents(text: string): Option<ExtractedComponents> {
    var full := Region(text, OpenFull, CloseFull);
    var updates := Updates(text);
    var purpose := Region(text, OpenPurpose, ClosePurpose);
    if full.None? && updates == [] && purpose.None? then None
    else Some(ExtractedComponents(full, if updates == [] then None else Some(updates), purpose))
  }
}
