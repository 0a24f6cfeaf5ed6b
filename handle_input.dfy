/**
 * The handle-list parsing behind the input form: the text is split into
 * lines, each line trimmed, blank lines dropped, the remaining white space
 * removed and the list cut to fifty.  Also the submit and paste guards and
 * the "left" counter.
 */
module HandleInput {
  import opened Wrappers
  import opened Text

  const MaxHandles: nat := 50

  /** `.map(line => line.trim()).filter(line => line.length > 0).map(line => line.replace(/\s+/g, ''))` */
  function CleanLines(lines: seq<string>): (r: seq<string>)
    ensures |r| <= |lines|
    ensures forall i :: 0 <= i < |r| ==> r[i] != [] && NoWhitespace(r[i])
  {
    if lines == [] then []
    else
      var t := Trim(lines[0]);
      var rest := CleanLines(lines[1..]);
      if t == [] then rest
      else
        assert RemoveWhitespace(t) != [] by {
          RemoveWhitespaceEmptyIff(t);
          assert !IsWhitespace(t[0]);
        }
        [RemoveWhitespace(t)] + rest
  }

  /** Independent statement of the cleaning: the lines with a visible character, stripped of white space. */
  function VisibleLines(lines: seq<string>): seq<string>
  {
    if lines == [] then []
    else (if HasNonWhitespace(lines[0]) then [RemoveWhitespace(lines[0])] else []) + VisibleLines(lines[1..])
  }

  /** Trimming first and stripping afterwards is the same as keeping the visible lines and stripping them. */
  lemma {:induction false} CleanLinesAreVisibleLines(lines: seq<string>)
    ensures CleanLines(lines) == VisibleLines(lines)
  {
    if lines != [] {
      CleanLinesAreVisibleLines(lines[1..]);
      TrimEmptyIff(lines[0]);
      RemoveWhitespaceOfTrim(lines[0]);
    }
  }

  /** `lines.filter(line => line.trim().length > 0).length` */
  function CountNonBlank(lines: seq<string>): (n: nat)
    ensures n <= |lines|
  {
    if lines == [] then 0
    else (if Trim(lines[0]) != [] then 1 else 0) + CountNonBlank(lines[1..])
  }

  /** The counter counts exactly the lines the parser keeps. */
  lemma {:induction false} CountNonBlankIsCleanLength(lines: seq<string>)
    ensures CountNonBlank(lines) == |CleanLines(lines)|
  {
    if lines != [] {
      CountNonBlankIsCleanLength(lines[1..]);
    }
  }

  /** The cleaned lines of the whole text, before the cut to fifty. */
  function CleanedInput(input: string): seq<string> {
    CleanLines(Split(input, '\n'))
  }

  /** The parse in `handleSubmit` and `handlePaste`. */
  function ParseHandles(input: string): (r: seq<string>)
    ensures |r| <= MaxHandles
    ensures |r| == if |CleanedInput(input)| <= MaxHandles then |CleanedInput(input)| else MaxHandles
    ensures r == CleanedInput(input)[..|r|]
    ensures forall i :: 0 <= i < |r| ==> r[i] != [] && NoWhitespace(r[i]) && '\n' !in r[i]
  {
    var cleaned := CleanedInput(input);
    if |cleaned| <= MaxHandles then cleaned else cleaned[..MaxHandles]
  }

  /** Every parsed handle is already its own trim. */
  lemma ParsedHandlesAreTrimmed(input: string, i: nat)
    requires i < |ParseHandles(input)|
    ensures Trim(ParseHandles(input)[i]) == ParseHandles(input)[i]
  {
    TrimUnchanged(ParseHandles(input)[i]);
  }

  /** A joined text is all white space exactly when each piece is, for a white-space separator. */
  lemma {:induction false} JoinAllWhitespace(pieces: seq<string>, sep: char)
    requires IsWhitespace(sep)
    ensures AllWhitespace(Join(pieces, sep)) <==> forall i :: 0 <= i < |pieces| ==> AllWhitespace(pieces[i])
  {
    if |pieces| > 1 {
      JoinAllWhitespace(pieces[1..], sep);
      var head := pieces[0] + [sep];
      var tail := Join(pieces[1..], sep);
      assert Join(pieces, sep) == head + tail;
      assert forall i :: 0 <= i < |pieces[0]| ==> (head + tail)[i] == pieces[0][i];
      assert forall i :: 0 <= i < |tail| ==> (head + tail)[|head| + i] == tail[i];
      assert forall i :: 1 <= i < |pieces| ==> pieces[i] == pieces[1..][i - 1];
    }
  }

  /** Nothing is kept from lines that are all white space, and something from any other line. */
  lemma {:induction false} CleanLinesEmptyIff(lines: seq<string>)
    ensures CleanLines(lines) == [] <==> forall i :: 0 <= i < |lines| ==> AllWhitespace(lines[i])
  {
    if lines != [] {
      CleanLinesEmptyIff(lines[1..]);
      TrimEmptyIff(lines[0]);
      assert forall i :: 1 <= i < |lines| ==> lines[i] == lines[1..][i - 1];
    }
  }

  /** The parse is empty exactly for a text that is all white space. */
  lemma ParseEmptyIff(input: string)
    ensures ParseHandles(input) == [] <==> AllWhitespace(input)
  {
    var lines := Split(input, '\n');
    CleanLinesEmptyIff(lines);
    JoinAllWhitespace(lines, '\n');
    JoinSplit(input, '\n');
  }

  /** `handleSubmit`: the handles passed to `onSubmit`, or nothing when the parse is empty. */
  function SubmitHandles(input: string): (r: Option<seq<string>>)
    ensures r.None? <==> AllWhitespace(input)
    ensures r.Some? ==> r.value == ParseHandles(input) && 1 <= |r.value| <= MaxHandles
  {
    ParseEmptyIff(input);
    var handles := ParseHandles(input);
    if |handles| == 0 then None else Some(handles)
  }

  /** The submit guard and the disabled state of the buttons (`input.trim().length === 0`) agree. */
  lemma SubmitGuardMatchesButton(input: string)
    ensures SubmitHandles(input).None? <==> Trim(input) == []
  {
    TrimEmptyIff(input);
  }

  /** A text without a line break yields at most one handle. */
  lemma SingleLineParsesToAtMostOne(input: string)
    requires '\n' !in input
    ensures |ParseHandles(input)| <= 1
  {
    SplitWithoutSeparator(input, '\n');
  }

  /** `handlePaste`: the handles auto-submitted after a paste, if any. */
  function PasteAutoSubmit(pasted: string): (r: Option<seq<string>>)
    ensures r.Some? <==> '\n' in pasted && |ParseHandles(pasted)| > 1
    ensures r.Some? ==> r.value == ParseHandles(pasted)
  {
    if '\n' in pasted then
      var handles := ParseHandles(pasted);
      if |handles| > 1 then Some(handles) else None
    else None
  }

  /** The line-break test before the parse is implied by the count test after it. */
  lemma PasteNewlineTestRedundant(pasted: string)
    ensures PasteAutoSubmit(pasted).Some? <==> |ParseHandles(pasted)| > 1
  {
    if '\n' !in pasted {
      SingleLineParsesToAtMostOne(pasted);
    }
  }

  /** `remainingHandles`: fifty less the non-blank lines; negative past the limit. */
  function RemainingHandles(input: string): (r: int)
    ensures r <= MaxHandles
  {
    MaxHandles - CountNonBlank(Split(input, '\n'))
  }

  /** The counter text. */
  datatype Counter = Left(count: nat) | LimitReached

  function CounterLabel(remaining: int): (c: Counter)
    ensures c.LimitReached? <==> remaining <= 0
    ensures c.Left? ==> c.count == remaining
  {
    if remaining > 0 then Left(remaining) else LimitReached
  }

  /**
   * The counter agrees with the parser: it is fifty less the lines the parser
   * keeps before the cut, and it reads "Limit reached" exactly when a submit
   * would send the full fifty.
   */
  lemma RemainingMatchesParse(input: string)
    ensures RemainingHandles(input) == MaxHandles - |CleanedInput(input)|
    ensures CounterLabel(RemainingHandles(input)).LimitReached? <==> |ParseHandles(input)| == MaxHandles
  {
    CountNonBlankIsCleanLength(Split(input, '\n'));
  }
}
