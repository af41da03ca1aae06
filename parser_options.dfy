/** The parser's options and the record of where a parsed question sits in a note
    (`src/parser.ts`). The grammar itself (`parseEx`) is not part of this model. */
module ParserOptionsModel {
  import opened Cards

  /** The separators and cloze switches the note parser is configured with. */
  datatype ParserOptions = ParserOptions(
    singleLineCardSeparator: string,
    singleLineReversedCardSeparator: string,
    multilineCardSeparator: string,
    multilineReversedCardSeparator: string,
    multilineCardEndMarker: string,
    convertHighlightsToClozes: bool,
    convertBoldTextToClozes: bool,
    convertCurlyBracketsToClozes: bool)

  /** `areParserOptionsEqual`: field by field comparison of all eight options, which is
      exactly equality of the two option values (so it is reflexive and symmetric). */
  function AreParserOptionsEqual(options1: ParserOptions, options2: ParserOptions): (r: bool)
    ensures r <==> options1 == options2
  {
    options1.singleLineCardSeparator == options2.singleLineCardSeparator
    && options1.singleLineReversedCardSeparator == options2.singleLineReversedCardSeparator
    && options1.multilineCardSeparator == options2.multilineCardSeparator
    && options1.multilineReversedCardSeparator == options2.multilineReversedCardSeparator
    && options1.multilineCardEndMarker == options2.multilineCardEndMarker
    && options1.convertHighlightsToClozes == options2.convertHighlightsToClozes
    && options1.convertBoldTextToClozes == options2.convertBoldTextToClozes
    && options1.convertCurlyBracketsToClozes == options2.convertCurlyBracketsToClozes
  }

  /** `copyParserOptions`: a field by field copy, equal to the original. */
  function CopyParserOptions(src: ParserOptions): (r: ParserOptions)
    ensures AreParserOptionsEqual(r, src) && r == src
  {
    ParserOptions(
      src.singleLineCardSeparator,
      src.singleLineReversedCardSeparator,
      src.multilineCardSeparator,
      src.multilineReversedCardSeparator,
      src.multilineCardEndMarker,
      src.convertHighlightsToClozes,
      src.convertBoldTextToClozes,
      src.convertCurlyBracketsToClozes)
  }

  /** A question found by the parser: its card type, its text and the first and last
      of the note lines it spans (line numbers start at 0). The constructor stores the
      four values unchanged. */
  datatype ParsedQuestionInfo = ParsedQuestionInfo(cardType: CardType, text: string, firstLineNum: int, lastLineNum: int)
  {
    /** `isQuestionLineNum`: the line is one of the lines the question spans, both ends
        included. */
    predicate IsQuestionLineNum(lineNum: int): (r: bool)
      ensures r <==> lineNum in LineRange(firstLineNum, lastLineNum)
    {
      LineRangeMembers(firstLineNum, lastLineNum);
      lineNum >= firstLineNum && lineNum <= lastLineNum
    }
  }

  /** The line numbers `first`, `first + 1`, ..., `last`, in order. */
  function LineRange(first: int, last: int): seq<int>
    decreases last - first
  {
    if first > last then [] else [first] + LineRange(first + 1, last)
  }

  /** The range holds `last - first + 1` lines, each one more than the line before, and
      a line belongs to it exactly when it lies between the two ends inclusive. */
  lemma {:induction false} LineRangeMembers(first: int, last: int)
    ensures |LineRange(first, last)| == if first > last then 0 else last - first + 1
    ensures forall k :: 0 <= k < |LineRange(first, last)| ==> LineRange(first, last)[k] == first + k
    ensures forall n :: n in LineRange(first, last) <==> first <= n <= last
    decreases last - first
  {
    if first <= last {
      LineRangeMembers(first + 1, last);
      var r := LineRange(first, last);
      assert r == [first] + LineRange(first + 1, last);
      forall n ensures n in r <==> first <= n <= last {
        assert n in r <==> n == first || n in LineRange(first + 1, last);
      }
    }
  }
}
