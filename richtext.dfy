/** `RichText` of the rules page (src/components/Rules/Rules.tsx): a rule's
    description is cut into blocks at blank lines (`split(/\n\s*\n/)`), and
    each block is shown either as a bulleted list, when all of its non-empty
    lines start with `"- "`, or as a paragraph holding the raw block. */
module RichText {
  import opened Text

  // ---------------------------------------------------------------------------
  // Cutting the text at blank lines
  // ---------------------------------------------------------------------------

  /** A string that `/\n\s*\n/` matches as a whole: a line break, any white
      space, and a line break. */
  predicate IsBlankLineSep(t: string) {
    |t| >= 2 && t[0] == '\n' && t[|t| - 1] == '\n' && AllSpace(t)
  }

  /** The end of the run of white space of `s` that starts at `i`. */
  function RunEnd(s: string, i: nat): (k: nat)
    requires i <= |s|
    ensures i <= k <= |s|
    ensures forall j :: i <= j < k ==> IsSpace(s[j])
    ensures k < |s| ==> !IsSpace(s[k])
    decreases |s| - i
  {
    if i < |s| && IsSpace(s[i]) then RunEnd(s, i + 1) else i
  }

  /** The position of the last line break of `s[lo..hi]`, if there is one. */
  function LastNewline(s: string, lo: nat, hi: nat): (r: Option<nat>)
    requires lo <= hi <= |s|
    ensures r.Some? ==> lo <= r.value < hi && s[r.value] == '\n'
    ensures r.Some? ==> forall j :: r.value < j < hi ==> s[j] != '\n'
    ensures r.None? ==> forall j :: lo <= j < hi ==> s[j] != '\n'
    decreases hi - lo
  {
    if lo == hi then None
    else if s[hi - 1] == '\n' then Some(hi - 1)
    else LastNewline(s, lo, hi - 1)
  }

  /** Where the match of `/\n\s*\n/` tried at position `q` ends, if it
      succeeds: `\s*` is greedy and gives back only what the final `\n`
      needs, so the match runs to the last line break of the white space
      that follows `q`. */
  function SeparatorEnd(s: string, q: nat): (r: Option<nat>)
    requires q < |s|
    ensures r.Some? ==> q + 2 <= r.value <= |s|
  {
    if s[q] != '\n' then None
    else match LastNewline(s, q + 1, RunEnd(s, q + 1))
      case None => None
      case Some(j) => Some(j + 1)
  }

  /** `SeparatorEnd` finds the longest match at `q`, and finds none exactly
      when no match is possible there. */
  lemma SeparatorEndSpec(s: string, q: nat)
    requires q < |s|
    ensures SeparatorEnd(s, q).Some? ==> IsBlankLineSep(s[q..SeparatorEnd(s, q).value])
    ensures SeparatorEnd(s, q).Some? ==>
      forall e :: SeparatorEnd(s, q).value < e <= |s| ==> !IsBlankLineSep(s[q..e])
    ensures SeparatorEnd(s, q).None? ==> forall e :: q < e <= |s| ==> !IsBlankLineSep(s[q..e])
  {
    if s[q] == '\n' {
      var k := RunEnd(s, q + 1);
      var last := LastNewline(s, q + 1, k);
      forall e | q + 2 <= e <= |s| && IsBlankLineSep(s[q..e])
        ensures e - 1 < k && s[e - 1] == '\n'
      {
        assert s[q..e][e - 1 - q] == s[e - 1];
      }
      if last.Some? {
        var e := last.value + 1;
        assert IsBlankLineSep(s[q..e]) by {
          forall i | 0 <= i < e - q ensures IsSpace(s[q..e][i]) {
            assert s[q..e][i] == s[q + i];
          }
        }
      }
    }
  }

  /** Blocks and separators, read from position `q` on, the current block
      having started at `p`; this is the scan of `String.prototype.split`. */
  function SplitFrom(s: string, p: nat, q: nat): (r: (seq<string>, seq<string>))
    requires p <= q <= |s|
    ensures |r.0| == |r.1| + 1
    decreases |s| - q
  {
    if q == |s| then ([s[p..]], [])
    else match SeparatorEnd(s, q)
      case None => SplitFrom(s, p, q + 1)
      case Some(e) =>
        var rest := SplitFrom(s, e, e);
        ([s[p..q]] + rest.0, [s[q..e]] + rest.1)
  }

  /** `text.split(/\n\s*\n/)`: the blocks of a description. There is always
      at least one, and the first is where the text begins. */
  function SplitBlocks(text: string): (blocks: seq<string>)
    ensures |blocks| >= 1
    ensures |blocks[0]| <= |text| && blocks[0] == text[..|blocks[0]|]
  {
    SplitFromShape(text, 0, 0);
    SplitFrom(text, 0, 0).0
  }

  /** The blank-line separators that `split` removed, in order: one fewer
      than the blocks, each a match of `/\n\s*\n/`. */
  function Separators(text: string): (seps: seq<string>)
    ensures |seps| + 1 == |SplitBlocks(text)|
    ensures forall k :: 0 <= k < |seps| ==> IsBlankLineSep(seps[k])
  {
    SplitFromSeps(text, 0, 0);
    SplitFrom(text, 0, 0).1
  }

  /** Blocks and separators, alternating, starting and ending with a block. */
  function Interleave(blocks: seq<string>, seps: seq<string>): string
    requires |blocks| == |seps| + 1
    decreases |seps|
  {
    if seps == [] then blocks[0]
    else blocks[0] + seps[0] + Interleave(blocks[1..], seps[1..])
  }

  /** No match of `/\n\s*\n/` starts inside `b`, even one that would reach
      into the separator `tail` that follows it. */
  predicate NoSepStartsIn(b: string, tail: string) {
    forall i, e :: 0 <= i < |b| && i < e <= |b| + |tail| ==> !IsBlankLineSep((b + tail)[i..e])
  }

  /** The separator `sep` could not have been longer: no longer match takes
      in the start of the text `next` that follows it. */
  predicate SepIsMaximal(sep: string, next: string) {
    forall j :: 0 < j <= |next| ==> !IsBlankLineSep(sep + next[..j])
  }

  /** The text after separator `k` of a scan: the blocks and separators that
      follow it, put back together. */
  function TextAfter(r: (seq<string>, seq<string>), k: nat): string
    requires |r.0| == |r.1| + 1 && k < |r.1|
  {
    Interleave(r.0[k + 1..], r.1[k + 1..])
  }

  /** The property of the scan: every position from `p` to `q` was tried. */
  predicate NoMatchBetween(s: string, p: nat, q: nat)
    requires p <= q <= |s|
  {
    forall i :: p <= i < q ==> SeparatorEnd(s, i).None?
  }

  lemma {:induction false} SplitFromShape(s: string, p: nat, q: nat)
    requires p <= q <= |s|
    ensures |SplitFrom(s, p, q).0| == |SplitFrom(s, p, q).1| + 1
    ensures Interleave(SplitFrom(s, p, q).0, SplitFrom(s, p, q).1) == s[p..]
    ensures SplitFrom(s, p, q).0[0] == s[p..p + |SplitFrom(s, p, q).0[0]|]
    ensures |SplitFrom(s, p, q).0[0]| >= q - p
    decreases |s| - q
  {
    if q < |s| {
      match SeparatorEnd(s, q)
      case None => SplitFromShape(s, p, q + 1);
      case Some(e) =>
        SplitFromShape(s, e, e);
        var rest := SplitFrom(s, e, e);
        assert SplitFrom(s, p, q).0[1..] == rest.0;
        assert SplitFrom(s, p, q).1[1..] == rest.1;
        assert s[q..] == s[q..e] + s[e..];
        assert s[p..] == s[p..q] + s[q..];
    }
  }

  lemma {:induction false} SplitFromSeps(s: string, p: nat, q: nat)
    requires p <= q <= |s|
    ensures forall k :: 0 <= k < |SplitFrom(s, p, q).1| ==> IsBlankLineSep(SplitFrom(s, p, q).1[k])
    decreases |s| - q
  {
    if q < |s| {
      match SeparatorEnd(s, q)
      case None => SplitFromSeps(s, p, q + 1);
      case Some(e) =>
        SplitFromSeps(s, e, e);
        SeparatorEndSpec(s, q);
    }
  }

  /** What the scan has tried rules out a separator inside the block. */
  lemma NoSepStartsInSlice(s: string, p: nat, q: nat, e: nat)
    requires p <= q <= e <= |s|
    requires NoMatchBetween(s, p, q)
    ensures NoSepStartsIn(s[p..q], s[q..e])
  {
    assert s[p..q] + s[q..e] == s[p..e];
    forall i, m | 0 <= i < q - p && i < m <= e - p
      ensures !IsBlankLineSep(s[p..e][i..m])
    {
      assert s[p..e][i..m] == s[p + i..p + m] by {
        assert |s[p..e][i..m]| == m - i;
        forall t | 0 <= t < m - i ensures s[p..e][i..m][t] == s[p + i..p + m][t] {
          assert s[p..e][i..m][t] == s[p..e][i + t] == s[p + i + t];
        }
      }
      SeparatorEndSpec(s, p + i);
    }
  }

  lemma {:induction false} SplitFromLeftmost(s: string, p: nat, q: nat)
    requires p <= q <= |s|
    requires NoMatchBetween(s, p, q)
    ensures forall k :: 0 <= k < |SplitFrom(s, p, q).1| ==>
      NoSepStartsIn(SplitFrom(s, p, q).0[k], SplitFrom(s, p, q).1[k])
    ensures NoSepStartsIn(SplitFrom(s, p, q).0[|SplitFrom(s, p, q).1|], "")
    decreases |s| - q
  {
    if q == |s| {
      NoSepStartsInSlice(s, p, q, q);
      assert s[p..q] == s[p..] && s[q..q] == "";
    } else {
      match SeparatorEnd(s, q)
      case None =>
        assert NoMatchBetween(s, p, q + 1);
        SplitFromLeftmost(s, p, q + 1);
      case Some(e) =>
        SplitFromLeftmost(s, e, e);
        NoSepStartsInSlice(s, p, q, e);
        var r := SplitFrom(s, p, q);
        var rest := SplitFrom(s, e, e);
        assert r.0[1..] == rest.0 && r.1[1..] == rest.1;
    }
  }

  /** A separator found by the scan cannot be extended into what follows. */
  lemma SeparatorEndIsMaximal(s: string, q: nat, e: nat, next: string)
    requires q < |s| && SeparatorEnd(s, q) == Some(e)
    requires e + |next| <= |s| && next == s[e..e + |next|]
    ensures SepIsMaximal(s[q..e], next)
  {
    SeparatorEndSpec(s, q);
    forall j | 0 < j <= |next| ensures !IsBlankLineSep(s[q..e] + next[..j]) {
      assert s[q..e] + next[..j] == s[q..e + j];
    }
  }

  lemma {:induction false} SplitFromGreedy(s: string, p: nat, q: nat)
    requires p <= q <= |s|
    ensures forall k :: 0 <= k < |SplitFrom(s, p, q).1| ==>
      SepIsMaximal(SplitFrom(s, p, q).1[k], TextAfter(SplitFrom(s, p, q), k))
    decreases |s| - q
  {
    if q < |s| {
      match SeparatorEnd(s, q)
      case None => SplitFromGreedy(s, p, q + 1);
      case Some(e) =>
        SplitFromGreedy(s, e, e);
        SplitFromShape(s, e, e);
        var r := SplitFrom(s, p, q);
        var rest := SplitFrom(s, e, e);
        assert r.0[1..] == rest.0 && r.1[1..] == rest.1;
        SeparatorEndIsMaximal(s, q, e, s[e..]);
        forall k | 1 <= k < |r.1| ensures TextAfter(r, k) == TextAfter(rest, k - 1) {
          assert r.0[k + 1..] == rest.0[k..] && r.1[k + 1..] == rest.1[k..];
        }
    }
  }

  /** The blocks and separators of `split(/\n\s*\n/)`: there is one more
      block than separators, and putting the separators back between the
      blocks gives the text; every separator is a blank-line match; the
      match is leftmost (no match starts inside a block) and longest (no
      separator could have taken in more of the text that follows it). */
  lemma SplitBlocksSpec(text: string)
    ensures |SplitBlocks(text)| == |Separators(text)| + 1
    ensures Interleave(SplitBlocks(text), Separators(text)) == text
    ensures forall k :: 0 <= k < |Separators(text)| ==> IsBlankLineSep(Separators(text)[k])
    ensures forall k :: 0 <= k < |Separators(text)| ==>
      NoSepStartsIn(SplitBlocks(text)[k], Separators(text)[k])
      && SepIsMaximal(Separators(text)[k],
           Interleave(SplitBlocks(text)[k + 1..], Separators(text)[k + 1..]))
    ensures NoSepStartsIn(SplitBlocks(text)[|Separators(text)|], "")
  {
    SplitFromShape(text, 0, 0);
    SplitFromSeps(text, 0, 0);
    SplitFromLeftmost(text, 0, 0);
    SplitFromGreedy(text, 0, 0);
  }

  // ---------------------------------------------------------------------------
  // List or paragraph
  // ---------------------------------------------------------------------------

  /** How a block is shown: a bulleted list of items, or a paragraph holding
      the raw block. */
  datatype Block = List(items: seq<string>) | Paragraph(text: string)

  /** `lines.map(l => l.trim())`. */
  function TrimEach(lines: seq<string>): (r: seq<string>)
    ensures |r| == |lines|
    ensures forall k :: 0 <= k < |r| ==> r[k] == Trim(lines[k])
  {
    seq(|lines|, k requires 0 <= k < |lines| => Trim(lines[k]))
  }

  /** `lines.filter(Boolean)`: the non-empty lines, in order. */
  function NonEmpty(lines: seq<string>): (r: seq<string>)
    ensures |r| <= |lines|
    ensures forall k :: 0 <= k < |r| ==> r[k] != [] && r[k] in lines
    decreases |lines|
  {
    if lines == [] then []
    else if lines[0] == [] then NonEmpty(lines[1..])
    else [lines[0]] + NonEmpty(lines[1..])
  }

  /** The non-empty trimmed lines of a block: each is one line, and has no
      white space at either end. */
  function ContentLines(blk: string): (lines: seq<string>)
    ensures forall k :: 0 <= k < |lines| ==>
      lines[k] != [] && '\n' !in lines[k] && !IsSpace(lines[k][0]) && !IsSpace(lines[k][|lines[k]| - 1])
  {
    var raw := Split(blk, '\n');
    TrimmedLinesShape(raw);
    NonEmpty(TrimEach(raw))
  }

  /** Trimmed pieces of a split at line breaks hold no line break and have no
      white space at either end. */
  lemma TrimmedLinesShape(raw: seq<string>)
    requires forall k :: 0 <= k < |raw| ==> '\n' !in raw[k]
    ensures forall x :: x in NonEmpty(TrimEach(raw)) ==>
      x != [] && '\n' !in x && !IsSpace(x[0]) && !IsSpace(x[|x| - 1])
  {
    var t := TrimEach(raw);
    forall x | x in NonEmpty(t) ensures x != [] && '\n' !in x && !IsSpace(x[0]) && !IsSpace(x[|x| - 1]) {
      var j :| 0 <= j < |t| && t[j] == x;
      TrimKeepsOut(raw[j], '\n');
    }
  }

  /** `l.startsWith('- ')`. */
  predicate IsListLine(l: string)
    ensures IsListLine(l) <==> |l| >= 2 && l[0] == '-' && l[1] == ' '
  {
    StartsWith(l, "- ")
  }

  /** A list item is its line without the leading `"- "`
      (`l.replace(/^- /, '')`). */
  function StripMarker(l: string): (item: string)
    requires IsListLine(l)
    ensures "- " + item == l
  {
    assert l == l[..2] + l[2..];
    l[2..]
  }

  /** The classification of one block. A block is a list exactly when it has
      a non-empty trimmed line and all of them start with `"- "`; its items
      are those lines without the marker, in order. Any other block is a
      paragraph of the raw block, untrimmed. */
  function ClassifyBlock(blk: string): (b: Block)
    ensures b.List? ==> |b.items| == |ContentLines(blk)| > 0
    ensures b.List? ==> forall k :: 0 <= k < |b.items| ==> "- " + b.items[k] == ContentLines(blk)[k]
    ensures b.Paragraph? ==> b.text == blk
  {
    var lines := ContentLines(blk);
    if |lines| > 0 && forall k :: 0 <= k < |lines| ==> IsListLine(lines[k]) then
      List(seq(|lines|, k requires 0 <= k < |lines| && IsListLine(lines[k]) => StripMarker(lines[k])))
    else Paragraph(blk)
  }

  /** The blocks of `<RichText text={...}>`, in order. */
  function Render(text: string): (r: seq<Block>)
    ensures |r| == |SplitBlocks(text)|
    ensures forall k :: 0 <= k < |r| ==> r[k] == ClassifyBlock(SplitBlocks(text)[k])
  {
    var blocks := SplitBlocks(text);
    seq(|blocks|, k requires 0 <= k < |blocks| => ClassifyBlock(blocks[k]))
  }

  // ---------------------------------------------------------------------------
  // What the classification means for the raw lines
  // ---------------------------------------------------------------------------

  lemma {:induction false} NonEmptyMembers(lines: seq<string>)
    ensures forall x :: x in NonEmpty(lines) <==> x in lines && x != []
    decreases |lines|
  {
    if lines != [] {
      NonEmptyMembers(lines[1..]);
      assert lines == [lines[0]] + lines[1..];
    }
  }

  /** `filter(Boolean)` keeps the order: it works piece by piece over a
      concatenation. */
  lemma {:induction false} NonEmptyConcat(a: seq<string>, b: seq<string>)
    ensures NonEmpty(a + b) == NonEmpty(a) + NonEmpty(b)
    decreases |a|
  {
    if a == [] {
      assert a + b == b;
    } else {
      assert (a + b)[0] == a[0];
      assert (a + b)[1..] == a[1..] + b;
      NonEmptyConcat(a[1..], b);
    }
  }

  /** A single line is kept exactly when it is not empty. */
  lemma NonEmptyOfOne(x: string)
    ensures NonEmpty([x]) == if x == [] then [] else [x]
  {
    assert [x][1..] == [];
  }

  lemma TrimEachMembers(raw: seq<string>)
    ensures forall x :: x in TrimEach(raw) <==> exists k :: 0 <= k < |raw| && x == Trim(raw[k])
  {
    forall x | x in TrimEach(raw) ensures exists k :: 0 <= k < |raw| && x == Trim(raw[k]) {
      var k :| 0 <= k < |raw| && TrimEach(raw)[k] == x;
    }
    forall k | 0 <= k < |raw| ensures Trim(raw[k]) in TrimEach(raw) {
      assert TrimEach(raw)[k] == Trim(raw[k]);
    }
  }

  /** What `filter(Boolean)` keeps of trimmed lines, stated on the lines
      before trimming: the non-empty ones exist exactly when some line is not
      blank, and a property holds of all of them exactly when it holds of the
      trim of every non-blank line. */
  lemma ContentLinesOfRaw(raw: seq<string>)
    ensures |NonEmpty(TrimEach(raw))| > 0 <==> exists k :: 0 <= k < |raw| && !AllSpace(raw[k])
    ensures (forall k :: 0 <= k < |NonEmpty(TrimEach(raw))| ==> IsListLine(NonEmpty(TrimEach(raw))[k]))
      <==> (forall k :: 0 <= k < |raw| && !AllSpace(raw[k]) ==> IsListLine(Trim(raw[k])))
  {
    var lines := NonEmpty(TrimEach(raw));
    NonEmptyMembers(TrimEach(raw));
    TrimEachMembers(raw);
    forall k | 0 <= k < |raw| ensures Trim(raw[k]) == [] <==> AllSpace(raw[k]) {
      TrimEmptyIffBlank(raw[k]);
    }
    if |lines| > 0 {
      assert lines[0] in lines;
    }
    forall k | 0 <= k < |raw| && !AllSpace(raw[k]) ensures Trim(raw[k]) in lines {
      assert Trim(raw[k]) in TrimEach(raw);
    }
    if forall k :: 0 <= k < |raw| && !AllSpace(raw[k]) ==> IsListLine(Trim(raw[k])) {
      forall k | 0 <= k < |lines| ensures IsListLine(lines[k]) {
        assert lines[k] in lines;
      }
    }
  }

  /** A block is shown as a list exactly when one of its lines is not blank
      and every line that is not blank starts, once trimmed, with `"- "`. */
  lemma ClassifyBlockIsList(blk: string)
    ensures ClassifyBlock(blk).List? <==>
      (exists k :: 0 <= k < |Split(blk, '\n')| && !AllSpace(Split(blk, '\n')[k]))
      && (forall k :: 0 <= k < |Split(blk, '\n')| && !AllSpace(Split(blk, '\n')[k]) ==>
            IsListLine(Trim(Split(blk, '\n')[k])))
  {
    var raw := Split(blk, '\n');
    assert ContentLines(blk) == NonEmpty(TrimEach(raw));
    ContentLinesOfRaw(raw);
  }

  /** A block of nothing but white space (the empty block included) is a
      paragraph of the raw block. */
  lemma ClassifyBlankBlock(blk: string)
    requires AllSpace(blk)
    ensures ClassifyBlock(blk) == Paragraph(blk)
  {
    var raw := Split(blk, '\n');
    SplitPiecesOfBlank(blk);
    ClassifyBlockIsList(blk);
  }

  lemma {:induction false} SplitPiecesOfBlank(s: string)
    requires AllSpace(s)
    ensures forall k :: 0 <= k < |Split(s, '\n')| ==> AllSpace(Split(s, '\n')[k])
    decreases |s|
  {
    if s != [] {
      SplitPiecesOfBlank(s[1..]);
      var rest := Split(s[1..], '\n');
      if s[0] != '\n' {
        assert Split(s, '\n')[1..] == rest[1..];
        assert AllSpace([s[0]] + rest[0]) by {
          forall i | 0 <= i < |[s[0]] + rest[0]| ensures IsSpace(([s[0]] + rest[0])[i]) {
            if i > 0 { assert ([s[0]] + rest[0])[i] == rest[0][i - 1]; }
          }
        }
      } else {
        assert Split(s, '\n')[1..] == rest;
      }
    }
  }

  lemma TrimKeepsOut(l: string, c: char)
    requires c !in l
    ensures c !in Trim(l)
  {
  }

  /** List items are single lines with no white space at their end. */
  lemma ListItemsAreTrimmedLines(blk: string)
    requires ClassifyBlock(blk).List?
    ensures forall k :: 0 <= k < |ClassifyBlock(blk).items| ==>
      '\n' !in ClassifyBlock(blk).items[k]
      && (ClassifyBlock(blk).items[k] == [] || !IsSpace(ClassifyBlock(blk).items[k][|ClassifyBlock(blk).items[k]| - 1]))
  {
    var lines := ContentLines(blk);
    var items := ClassifyBlock(blk).items;
    forall k | 0 <= k < |items|
      ensures '\n' !in items[k] && (items[k] == [] || !IsSpace(items[k][|items[k]| - 1]))
    {
      assert lines[k] == "- " + items[k];
    }
  }

  /** Positions without a line break cannot start a separator, so the scan
      passes over them. */
  lemma {:induction false} SplitFromSkip(s: string, p: nat, q: nat, r: nat)
    requires p <= q <= r <= |s|
    requires forall i :: q <= i < r ==> s[i] != '\n'
    ensures SplitFrom(s, p, q) == SplitFrom(s, p, r)
    decreases r - q
  {
    if q < r {
      SplitFromSkip(s, p, q + 1, r);
    }
  }

  // ---------------------------------------------------------------------------
  // A description with a list and a paragraph
  // ---------------------------------------------------------------------------

  const Sample: string := "- uno\n- dos\n\nPárrafo simple"

  lemma SampleChars()
    ensures |Sample| == 27
    ensures forall i :: 0 <= i < 5 ==> Sample[i] != '\n'
    ensures Sample[5] == '\n' && Sample[6] == '-'
    ensures forall i :: 6 <= i < 11 ==> Sample[i] != '\n'
    ensures Sample[11] == '\n' && Sample[12] == '\n' && Sample[13] == 'P'
    ensures forall i :: 13 <= i < 27 ==> Sample[i] != '\n'
  {}

  lemma SampleSep5()
    ensures SeparatorEnd(Sample, 5).None?
  {
    SampleChars();
    assert RunEnd(Sample, 6) == 6;
  }

  lemma SampleSep11()
    ensures SeparatorEnd(Sample, 11) == Some(13)
  {
    SampleChars();
    assert RunEnd(Sample, 13) == 13;
    assert RunEnd(Sample, 12) == 13;
    assert LastNewline(Sample, 12, 13) == Some(12);
  }

  lemma SampleTail()
    ensures SplitFrom(Sample, 13, 13) == ([Sample[13..]], [])
  {
    SampleChars();
    SplitFromSkip(Sample, 13, 13, 27);
  }

  lemma SampleSplit()
    ensures SplitBlocks(Sample) == [Sample[..11], Sample[13..]]
  {
    SampleChars();
    SplitFromSkip(Sample, 0, 0, 5);
    SampleSep5();
    SplitFromSkip(Sample, 0, 6, 11);
    SampleSep11();
    SampleTail();
  }

  lemma SampleParts()
    ensures Sample[..11] == "- uno\n- dos"
    ensures Sample[13..] == "Párrafo simple"
  {}

  lemma ListLines()
    ensures Split("- uno\n- dos", '\n') == ["- uno", "- dos"]
  {
    SplitAtFirst("- uno", '\n', "- dos");
    assert "- uno" + ['\n'] + "- dos" == "- uno\n- dos";
    SplitWithoutSep("- dos", '\n');
  }

  lemma ListTrimmed()
    ensures TrimEach(["- uno", "- dos"]) == ["- uno", "- dos"]
  {
    TrimOfTrimmed("- uno");
    TrimOfTrimmed("- dos");
  }

  lemma ContentLinesVia(blk: string, raw: seq<string>, lines: seq<string>)
    requires Split(blk, '\n') == raw && NonEmpty(TrimEach(raw)) == lines
    ensures ContentLines(blk) == lines
  {}

  lemma ListNonEmpty()
    ensures NonEmpty(["- uno", "- dos"]) == ["- uno", "- dos"]
  {}

  lemma ListContent()
    ensures ContentLines("- uno\n- dos") == ["- uno", "- dos"]
  {
    ListLines();
    ListTrimmed();
    ListNonEmpty();
    ContentLinesVia("- uno\n- dos", ["- uno", "- dos"], ["- uno", "- dos"]);
  }

  lemma ListBlockOf(blk: string)
    requires ContentLines(blk) == ["- uno", "- dos"]
    ensures ClassifyBlock(blk) == List(["uno", "dos"])
  {
    assert IsListLine("- uno") && IsListLine("- dos");
  }

  lemma ListBlock()
    ensures ClassifyBlock("- uno\n- dos") == List(["uno", "dos"])
  {
    ListContent();
    ListBlockOf("- uno\n- dos");
  }

  lemma ParagraphTrimmed()
    ensures TrimEach(["Párrafo simple"]) == ["Párrafo simple"]
  {
    TrimOfTrimmed("Párrafo simple");
  }

  lemma ParagraphNonEmpty()
    ensures NonEmpty(["Párrafo simple"]) == ["Párrafo simple"]
  {}

  lemma ParagraphContent()
    ensures ContentLines("Párrafo simple") == ["Párrafo simple"]
  {
    SplitWithoutSep("Párrafo simple", '\n');
    ParagraphTrimmed();
    ParagraphNonEmpty();
    ContentLinesVia("Párrafo simple", ["Párrafo simple"], ["Párrafo simple"]);
  }

  /** A block whose first non-empty line is no list item is a paragraph. */
  lemma ParagraphByFirstLine(blk: string)
    requires ContentLines(blk) != [] && !IsListLine(ContentLines(blk)[0])
    ensures ClassifyBlock(blk) == Paragraph(blk)
  {}

  lemma ParagraphLineIsNoItem()
    ensures !IsListLine("Párrafo simple")
  {
    assert "Párrafo simple"[0] == 'P';
  }

  lemma ParagraphBlock()
    ensures ClassifyBlock("Párrafo simple") == Paragraph("Párrafo simple")
  {
    ParagraphContent();
    ParagraphLineIsNoItem();
    ParagraphByFirstLine("Párrafo simple");
  }

  lemma RenderOfTwo(text: string, a: string, b: string)
    requires SplitBlocks(text) == [a, b]
    ensures Render(text) == [ClassifyBlock(a), ClassifyBlock(b)]
  {}

  /** The description of a rule with a two-item list and a paragraph. */
  lemma SampleRichText()
    ensures Render(Sample) == [List(["uno", "dos"]), Paragraph("Párrafo simple")]
  {
    SampleSplit();
    SampleParts();
    RenderOfTwo(Sample, "- uno\n- dos", "Párrafo simple");
    ListBlock();
    ParagraphBlock();
  }
}
