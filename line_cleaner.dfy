/** `clean_text` of the news-site text collector: split the page text into lines,
    keep the stripped lines longer than 40 characters, and join them with single
    spaces. */
module LineCleaner {
  import opened Text
  import opened Seqs

  /** A line is kept when its stripped form is longer than this. */
  const MIN_LINE_CHARS := 40

  /** No whitespace at either end. */
  predicate Trimmed(s: string) {
    s == [] || (!IsSpace(s[0]) && !IsSpace(s[|s| - 1]))
  }

  /** `line.strip()` for every line, in order. */
  function StripAll(lines: seq<string>): (r: seq<string>)
    ensures |r| == |lines|
    ensures forall j :: 0 <= j < |r| ==> r[j] == Strip(lines[j]) && Trimmed(r[j])
  {
    seq(|lines|, j requires 0 <= j < |lines| => Strip(lines[j]))
  }

  /** A stripped line `clean_text` keeps. */
  predicate LongLine(s: string) {
    |s| > MIN_LINE_CHARS
  }

  /** The pieces `clean_text` joins. */
  function Pieces(text: string): seq<string> {
    Filter(StripAll(SplitLines(text)), LongLine)
  }

  /** `clean_text(text)` */
  function CleanText(text: string): string {
    Join(Pieces(text), " ")
  }

  /** The pieces of `clean_text` are the stripped forms of exactly those lines whose
      stripped form is longer than 40 characters, in their original order. */
  lemma PiecesAreLongLines(text: string)
    ensures var lines := SplitLines(text);
      var idx := PositionsFrom(StripAll(lines), LongLine, 0);
      var pieces := Pieces(text);
      && |idx| == |pieces|
      && Increasing(idx)
      && (forall k :: 0 <= k < |pieces| ==> idx[k] < |lines| && pieces[k] == Strip(lines[idx[k]]))
      && (forall j :: 0 <= j < |lines| ==> (j in idx <==> |Strip(lines[j])| > MIN_LINE_CHARS))
  {
    FilterPositions(StripAll(SplitLines(text)), LongLine);
  }

  /** No line is longer than 40 characters once stripped. */
  predicate NoLongLine(lines: seq<string>) {
    forall j :: 0 <= j < |lines| ==> |Strip(lines[j])| <= MIN_LINE_CHARS
  }

  /** Text with no line longer than 40 characters once stripped cleans to "", and
      only such text does. */
  lemma CleanTextEmpty(text: string)
    ensures CleanText(text) == "" <==> NoLongLine(SplitLines(text))
  {
    var lines := SplitLines(text);
    FilterEmpty(StripAll(lines), LongLine);
    NoneKept(lines);
    JoinNonEmpty(Pieces(text));
  }

  lemma NoneKept(lines: seq<string>)
    ensures (forall j :: 0 <= j < |lines| ==> !LongLine(StripAll(lines)[j])) <==> NoLongLine(lines)
  {
    var stripped := StripAll(lines);
    assert forall j :: 0 <= j < |lines| ==> stripped[j] == Strip(lines[j]);
  }

  /** A join of long pieces is empty only when there are no pieces. */
  lemma JoinNonEmpty(pieces: seq<string>)
    requires forall k :: 0 <= k < |pieces| ==> |pieces[k]| > MIN_LINE_CHARS
    ensures Join(pieces, " ") == "" <==> pieces == []
  {
    if pieces != [] {
      JoinEnds(pieces, " ");
    }
  }

  /** Every piece is longer than 40 characters and has no whitespace at either end. */
  lemma PiecesTrimmed(text: string)
    ensures var pieces := Pieces(text);
      forall k :: 0 <= k < |pieces| ==> |pieces[k]| > MIN_LINE_CHARS && Trimmed(pieces[k])
  {
    FilterFromAt(StripAll(SplitLines(text)), LongLine, 0);
  }

  /** No piece holds a line break. */
  lemma PiecesSingleLine(text: string)
    ensures var pieces := Pieces(text);
      forall k, c :: 0 <= k < |pieces| && c in pieces[k] ==> c !in LINE_BREAKS
  {
    var lines := SplitLines(text);
    var stripped := StripAll(lines);
    var pieces := Pieces(text);
    FilterFromAt(stripped, LongLine, 0);
    forall k, c | 0 <= k < |pieces| && c in pieces[k]
      ensures c !in LINE_BREAKS
    {
      var j := PositionsFrom(stripped, LongLine, 0)[k];
      StripKeeps(lines[j]);
      var m :| 0 <= m < |lines[j]| && lines[j][m] == c;
    }
  }

  /** Single lines joined by spaces make a single line. */
  lemma JoinSingleLine(pieces: seq<string>)
    requires forall k, c :: 0 <= k < |pieces| && c in pieces[k] ==> c !in LINE_BREAKS
    ensures forall c :: c in Join(pieces, " ") ==> c !in LINE_BREAKS
  {
    JoinKeeps(pieces, " ");
    forall c | c in Join(pieces, " ")
      ensures c !in LINE_BREAKS
    {
      if c != ' ' {
        var k :| 0 <= k < |pieces| && c in pieces[k];
      }
    }
  }

  /** The result of `clean_text` is a single line. */
  lemma CleanTextSingleLine(text: string)
    ensures forall c :: c in CleanText(text) ==> c !in LINE_BREAKS
  {
    PiecesSingleLine(text);
    JoinSingleLine(Pieces(text));
  }

  /** The result of `clean_text` has no whitespace at either end, and is either empty
      or longer than 40 characters. */
  lemma CleanTextTrimmed(text: string)
    ensures var r := CleanText(text);
      (r == [] || |r| > MIN_LINE_CHARS) && Trimmed(r)
  {
    var pieces := Pieces(text);
    if pieces != [] {
      PiecesTrimmed(text);
      JoinEnds(pieces, " ");
    }
  }

  /** Cleaning cleaned text changes nothing. */
  lemma CleanTextIdempotent(text: string)
    ensures CleanText(CleanText(text)) == CleanText(text)
  {
    var r := CleanText(text);
    CleanTextSingleLine(text);
    CleanTextTrimmed(text);
    if r != [] {
      SplitLinesSingle(r);
      StripUnchanged(r);
      assert StripAll([r]) == [r];
      assert Filter([r], LongLine) == [r];
    }
  }
}
