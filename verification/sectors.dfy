/** Parsing of the generative-text reply into sectors (BACK.py:121-128):
    blocks are separated by a blank line; in a block of two or more lines the
    first line names the sector and the others name its competitors. */
module Sectors {
  import opened Options
  import opened Text

  datatype Sector = Sector(name: string, competitors: seq<string>)

  /** The block separator of BACK.py:122. */
  const BlockSeparator: string := "\n\n"

  /** The line separator of BACK.py:123. */
  const LineSeparator: string := "\n"

  /** An entry as shown to the user: no outer whitespace, one line. */
  predicate IsCleanEntry(s: string) {
    IsStripped(s) && '\n' !in s
  }

  /** What every parsed sector looks like: a non-empty clean name and at
      least one competitor, each a clean entry. */
  predicate IsWellFormed(sector: Sector) {
    && sector.name != ""
    && IsCleanEntry(sector.name)
    && |sector.competitors| >= 1
    && forall k :: 0 <= k < |sector.competitors| ==> IsCleanEntry(sector.competitors[k])
  }

  /** `[l.strip() for l in lines]`. */
  function StripEach(lines: seq<string>): (r: seq<string>)
    ensures |r| == |lines|
    ensures forall k :: 0 <= k < |r| ==> r[k] == Strip(lines[k])
  {
    seq(|lines|, k requires 0 <= k < |lines| => Strip(lines[k]))
  }

  /** The lines of a text split on "\n" hold no "\n". */
  lemma LinesHoldNoBreak(s: string)
    ensures forall k :: 0 <= k < |Split(s, LineSeparator)| ==> '\n' !in Split(s, LineSeparator)[k]
  {
    SplitPiecesAvoidSeparator(s, LineSeparator);
    forall k | 0 <= k < |Split(s, LineSeparator)|
      ensures '\n' !in Split(s, LineSeparator)[k]
    {
      InfixSingle('\n', Split(s, LineSeparator)[k]);
    }
  }

  /** Splitting on a one-character separator yields one piece more than
      there are occurrences of that character. */
  lemma {:induction false} SplitSingleCount(s: string, c: char)
    ensures |Split(s, [c])| == multiset(s)[c] + 1
    decreases |s|
  {
    if |s| > 0 {
      SplitSingleCount(s[1..], c);
      assert s == [s[0]] + s[1..];
      assert multiset(s) == multiset{s[0]} + multiset(s[1..]);
      if s[..1] == [c] {
        assert s[0] == c;
        assert |Split(s, [c])| == 1 + |Split(s[1..], [c])|;
      } else {
        assert s[0] != c;
      }
    }
  }

  /** One block of BACK.py:123-127: kept exactly when its stripped text
      spans more than one line; then its name is the stripped first line
      and its competitors are the stripped later lines, in order. */
  function ParseBlock(block: string): (r: Option<Sector>)
    ensures r.Some? <==> '\n' in Strip(block)
    ensures r.Some? ==> IsWellFormed(r.value)
    ensures r.Some? ==> |r.value.competitors| == multiset(Strip(block))['\n']
    ensures r.Some? ==> exists lines: seq<string> ::
              && |lines| == |r.value.competitors| + 1
              && Join(lines, LineSeparator) == Strip(block)
              && (forall k :: 0 <= k < |lines| ==> '\n' !in lines[k])
              && Strip(lines[0]) == r.value.name
              && (forall k :: 0 <= k < |r.value.competitors| ==> r.value.competitors[k] == Strip(lines[k + 1]))
  {
    var text := Strip(block);
    var lines := Split(text, LineSeparator);
    assert |lines| > 1 <==> '\n' in text by {
      SplitManyIffInfix(text, LineSeparator);
      InfixSingle('\n', text);
    }
    if |lines| > 1 then
      var sector := Sector(Strip(lines[0]), StripEach(lines[1..]));
      assert IsWellFormed(sector) by {
        SectorFromLinesIsWellFormed(text);
      }
      assert |sector.competitors| == multiset(text)['\n'] by {
        SplitSingleCount(text, '\n');
      }
      assert IsLinesOf(lines, text) by {
        JoinSplit(text, LineSeparator);
        LinesHoldNoBreak(text);
      }
      Some(sector)
    else
      None
  }

  /** `lines` are the lines of `text`: joined with line breaks they give
      `text`, and none holds a line break. */
  predicate IsLinesOf(lines: seq<string>, text: string) {
    && Join(lines, LineSeparator) == text
    && forall k :: 0 <= k < |lines| ==> '\n' !in lines[k]
  }

  /** The sector built from a stripped text of two or more lines is well
      formed. */
  lemma SectorFromLinesIsWellFormed(text: string)
    requires IsStripped(text)
    requires |Split(text, LineSeparator)| > 1
    ensures IsWellFormed(Sector(Strip(Split(text, LineSeparator)[0]), StripEach(Split(text, LineSeparator)[1..])))
  {
    var lines := Split(text, LineSeparator);
    var name := Strip(lines[0]);
    var competitors := StripEach(lines[1..]);
    LinesHoldNoBreak(text);
    assert text[..1] != LineSeparator by {
      assert !IsSpace(text[0]);
      assert text[..1][0] == text[0];
    }
    assert lines[0][0] == text[0];
    assert !AllSpace(lines[0]);
    StripAddsNothing(lines[0], '\n');
    forall k | 0 <= k < |competitors| ensures '\n' !in competitors[k] {
      assert lines[1..][k] == lines[k + 1];
      StripAddsNothing(lines[k + 1], '\n');
    }
  }

  /** The loop at BACK.py:122-127: the sectors of the kept blocks, in
      block order. */
  function KeepSectors(blocks: seq<string>): (r: seq<Sector>)
    ensures |r| <= |blocks|
    ensures forall k :: 0 <= k < |r| ==> IsWellFormed(r[k])
    decreases |blocks|
  {
    if |blocks| == 0 then []
    else
      var rest := KeepSectors(blocks[1..]);
      match ParseBlock(blocks[0])
      case Some(sector) => [sector] + rest
      case None => rest
  }

  /** `query_gemini_llm` after the reply text is in hand. */
  function ParseSectors(content: string): (r: seq<Sector>)
    ensures |r| <= |Split(content, BlockSeparator)|
    ensures forall k :: 0 <= k < |r| ==> IsWellFormed(r[k])
  {
    KeepSectors(Split(content, BlockSeparator))
  }

  /** Parsing is block-wise: the sectors of two runs of blocks are the
      sectors of the first run followed by those of the second, so block
      order is preserved. */
  lemma {:induction false} KeepSectorsAppend(a: seq<string>, b: seq<string>)
    ensures KeepSectors(a + b) == KeepSectors(a) + KeepSectors(b)
    decreases |a|
  {
    if |a| > 0 {
      assert (a + b)[1..] == a[1..] + b;
      KeepSectorsAppend(a[1..], b);
    } else {
      assert a + b == b;
    }
  }

  /** A single block gives at most its own sector. */
  lemma KeepSectorsSingle(block: string)
    ensures KeepSectors([block]) == (if ParseBlock(block).Some? then [ParseBlock(block).value] else [])
  {
    assert [block][1..] == [];
  }

  /** A reply without a line break yields no sector at all (so the pipeline
      falls back to its placeholder). */
  lemma {:induction false} SingleLineReplyHasNoSectors(content: string)
    requires '\n' !in content
    ensures ParseSectors(content) == []
  {
    var blocks := Split(content, BlockSeparator);
    JoinSplit(content, BlockSeparator);
    assert |blocks| == 1 by {
      SplitManyIffInfix(content, BlockSeparator);
      if IsInfix(BlockSeparator, content) {
        InfixHoldsFirst(BlockSeparator, content);
      }
    }
    assert blocks[0] == content;
    assert '\n' !in Strip(content);
    assert blocks[1..] == [];
  }

  /** Whatever contains a non-empty infix contains its first character. */
  lemma {:induction false} InfixHoldsFirst(x: string, s: string)
    requires |x| > 0 && IsInfix(x, s)
    ensures x[0] in s
    decreases |s|
  {
    if s[..|x|] == x {
      assert s[0] == x[0];
    } else {
      InfixHoldsFirst(x, s[1..]);
    }
  }
}
