/**
  One cycle of the polling loop of `main` in src/main.rs, and a bounded run of cycles.

  Every provider call of a cycle is a field of `Provider`: what the provider answers
  when asked. A cycle either continues, having printed some lines, or ends the
  program with an error, after printing the lines it printed before the error.
 */
module PollLoop {
  import opened Uia
  import opened ConditionBuilder
  import opened SubtreeSearch

  /** The bound the program passes to every `GetText` call. */
  const MaxTextLength: int := 1_000_000

  /** `GetCaretRange`'s out-parameters: the "is active" flag and the (possibly null) range. */
  datatype CaretReply = CaretReply(isActive: bool, range: Option<TextRange>)

  /** The provider's replies during one cycle. */
  datatype Provider = Provider(
    focus: Result<Element>,                              // GetFocusedElement
    findFirst: (Element, Cond) -> Result<Element>,       // FindFirst(TreeScope_Subtree, condition)
    getPattern: (Element, PatternId) -> Result<TextPattern>, // GetCurrentPatternAs
    getSelection: TextPattern -> Result<RangeArray>,     // GetSelection
    length: RangeArray -> Result<int>,                   // Length
    getElement: (RangeArray, int) -> Result<TextRange>,  // GetElement(i)
    getText: (TextRange, int) -> Result<string>,         // GetText(maxLength)
    getCaretRange: TextPattern -> Result<CaretReply>     // GetCaretRange
  )

  /** A printed line: a selection range with its index, or the caret range. */
  datatype Line = Selection(index: int, text: string) | Caret(text: string)

  datatype StepResult =
    | Continue(lines: seq<Line>)
    | Fatal(lines: seq<Line>, error: Error)

  /** The text of selection range `i`: `GetElement(i)?` then `GetText(1_000_000)?`. */
  function SelectionText(p: Provider, sel: RangeArray, i: int): Result<string> {
    var range :- p.getElement(sel, i);
    p.getText(range, MaxTextLength)
  }

  /** `lines` are the lines of the selection ranges `i`, `i + 1`, ..., in that order. */
  predicate LinesFrom(p: Provider, sel: RangeArray, i: int, lines: seq<Line>) {
    forall k :: 0 <= k < |lines| ==>
      lines[k].Selection? && lines[k].index == i + k && SelectionText(p, sel, i + k) == Ok(lines[k].text)
  }

  lemma PrependLine(p: Provider, sel: RangeArray, i: int, text: string, rest: seq<Line>)
    requires SelectionText(p, sel, i) == Ok(text) && LinesFrom(p, sel, i + 1, rest)
    ensures LinesFrom(p, sel, i, [Selection(i, text)] + rest)
  {
  }

  /**
    The selection loop from index `i` up to (not including) `n`: one line per index in
    increasing order, stopping at the first index whose text cannot be read.
   */
  function SelectionLines(p: Provider, sel: RangeArray, n: int, i: nat): (r: StepResult)
    ensures i >= n ==> r == Continue([])
    ensures r.Continue? ==> |r.lines| == if i < n then n - i else 0
    ensures r.Fatal? ==> i + |r.lines| < n && SelectionText(p, sel, i + |r.lines|) == Err(r.error)
    ensures LinesFrom(p, sel, i, r.lines)
    decreases n - i
  {
    if i >= n then Continue([])
    else
      match SelectionText(p, sel, i)
      case Err(e) => Fatal([], e)
      case Ok(text) =>
        var rest := SelectionLines(p, sel, n, i + 1);
        PrependLine(p, sel, i, text, rest.lines);
        var lines := [Selection(i, text)] + rest.lines;
        if rest.Continue? then Continue(lines) else Fatal(lines, rest.error)
  }

  /** The range `GetCaretRange` hands back, when the call succeeds and the range is not null. */
  function CaretRange(p: Provider, tp: TextPattern): Option<TextRange> {
    if p.getCaretRange(tp).Ok? then p.getCaretRange(tp).value.range else None
  }

  /** The caret range's text, asked for with the 1,000,000 bound. */
  function CaretText(p: Provider, tp: TextPattern): Result<string>
    requires CaretRange(p, tp).Some?
  {
    p.getText(CaretRange(p, tp).value, MaxTextLength)
  }

  /** The caret part of a cycle, after the selection lines `lines` were printed. */
  function CaretStep(p: Provider, tp: TextPattern, lines: seq<Line>): (r: StepResult)
    ensures p.getCaretRange(tp).Err? ==> r == Continue(lines)
    ensures CaretRange(p, tp).None? ==> r == Continue(lines)
    ensures lines <= r.lines && |r.lines| <= |lines| + 1
    ensures |r.lines| == |lines| + 1 <==> CaretRange(p, tp).Some? && CaretText(p, tp).Ok?
    ensures |r.lines| == |lines| + 1 ==> r.lines[|lines|] == Caret(CaretText(p, tp).value)
    ensures r.Fatal? <==> CaretRange(p, tp).Some? && CaretText(p, tp).Err?
    ensures r.Fatal? ==> r == Fatal(lines, CaretText(p, tp).error)
  {
    match p.getCaretRange(tp)
    case Err(_) => Continue(lines)
    case Ok(reply) =>
      match reply.range
      case None => Continue(lines)
      case Some(range) =>
        match p.getText(range, MaxTextLength)
        case Err(e) => Fatal(lines, e)
        case Ok(text) => Continue(lines + [Caret(text)])
  }

  /**
    Reading selection and caret from the matched element `e`. A failing
    `GetCurrentPatternAs`, `GetSelection` or `Length` ends the program with its error
    before anything is printed.
   */
  function ReadMatch(p: Provider, e: Element): (r: StepResult)
    ensures var pat := p.getPattern(e, TextPattern2Id);
      pat.Err? ==> r == Fatal([], pat.error)
    ensures var pat := p.getPattern(e, TextPattern2Id);
      pat.Ok? && p.getSelection(pat.value).Err? ==> r == Fatal([], p.getSelection(pat.value).error)
    ensures var pat := p.getPattern(e, TextPattern2Id);
      pat.Ok? && p.getSelection(pat.value).Ok? && p.length(p.getSelection(pat.value).value).Err? ==>
      r == Fatal([], p.length(p.getSelection(pat.value).value).error)
    ensures r.Continue? ==> WellOrdered(r.lines)
  {
    match p.getPattern(e, TextPattern2Id)
    case Err(err) => Fatal([], err)
    case Ok(tp) =>
      match p.getSelection(tp)
      case Err(err) => Fatal([], err)
      case Ok(sel) =>
        match p.length(sel)
        case Err(err) => Fatal([], err)
        case Ok(n) =>
          match SelectionLines(p, sel, n, 0)
          case Fatal(printed, err) => Fatal(printed, err)
          case Continue(lines) => CaretStep(p, tp, lines)
  }

  /** The element the subtree search returns in a cycle, when focus and search both succeed. */
  function MatchedElement(p: Provider, cond: Cond): Option<Element> {
    if p.focus.Ok? && p.findFirst(p.focus.value, cond).Ok? then Some(p.findFirst(p.focus.value, cond).value) else None
  }

  /** One pass through the body of `main`'s loop with the condition built at start-up. */
  function Step(p: Provider, cond: Cond): (r: StepResult)
    ensures p.focus.Err? ==> r == Continue([])
    ensures p.focus.Ok? && p.findFirst(p.focus.value, cond).Err? ==>
      var e := p.findFirst(p.focus.value, cond).error;
      r == if Succeeded(e.code) then Continue([]) else Fatal([], e)
    ensures r.Fatal? ==> p.focus.Ok?
    ensures MatchedElement(p, cond).Some? ==>
      var pat := p.getPattern(MatchedElement(p, cond).value, TextPattern2Id);
      pat.Err? ==> r == Fatal([], pat.error)
    ensures MatchedElement(p, cond).Some? ==>
      var pat := p.getPattern(MatchedElement(p, cond).value, TextPattern2Id);
      pat.Ok? && p.getSelection(pat.value).Err? ==> r == Fatal([], p.getSelection(pat.value).error)
    ensures MatchedElement(p, cond).Some? ==>
      var pat := p.getPattern(MatchedElement(p, cond).value, TextPattern2Id);
      pat.Ok? && p.getSelection(pat.value).Ok? && p.length(p.getSelection(pat.value).value).Err? ==>
      r == Fatal([], p.length(p.getSelection(pat.value).value).error)
  {
    match p.focus
    case Err(_) => Continue([])
    case Ok(parent) =>
      match FindFirstElementInSubtree(p.findFirst(parent, cond))
      case Err(e) => Fatal([], e)
      case Ok(None) => Continue([])
      case Ok(Some(e)) => ReadMatch(p, e)
  }

  // ---------------------------------------------------------------------------
  // Properties of one cycle

  /** The replies of a cycle in which the search matched and the selection could be listed. */
  predicate Matched(p: Provider, cond: Cond, tp: TextPattern, sel: RangeArray, n: int) {
    && p.focus.Ok?
    && p.findFirst(p.focus.value, cond).Ok?
    && p.getPattern(p.findFirst(p.focus.value, cond).value, TextPattern2Id) == Ok(tp)
    && p.getSelection(tp) == Ok(sel)
    && p.length(sel) == Ok(n)
  }

  /**
    Selection range `i` can be read: `GetElement(i)` succeeds and so does `GetText` on
    that range with the 1,000,000 bound. Stated on the provider's replies directly,
    independently of `SelectionText`.
   */
  predicate RangeReadable(p: Provider, sel: RangeArray, i: int) {
    p.getElement(sel, i).Ok? && p.getText(p.getElement(sel, i).value, MaxTextLength).Ok?
  }

  /** The text a readable selection range yields. */
  function RangeText(p: Provider, sel: RangeArray, i: int): string
    requires RangeReadable(p, sel, i)
  {
    p.getText(p.getElement(sel, i).value, MaxTextLength).value
  }

  /** Why an unreadable selection range could not be read: `GetElement`'s error, else `GetText`'s. */
  function RangeError(p: Provider, sel: RangeArray, i: int): Error
    requires !RangeReadable(p, sel, i)
  {
    if p.getElement(sel, i).Err? then p.getElement(sel, i).error
    else p.getText(p.getElement(sel, i).value, MaxTextLength).error
  }

  /** Every selection range of `0..n` can be read. */
  predicate SelectionReadable(p: Provider, sel: RangeArray, n: int) {
    forall i :: 0 <= i < n ==> RangeReadable(p, sel, i)
  }

  /** The selection lines of a match, stated without the loop. */
  function SelectionOutput(p: Provider, sel: RangeArray, n: int): seq<Line>
    requires SelectionReadable(p, sel, n)
  {
    seq(if n < 0 then 0 else n, i requires 0 <= i < n => Selection(i, RangeText(p, sel, i)))
  }

  /** The loop reads range `i` as `GetElement(i)` followed by `GetText(1_000_000)` on it. */
  lemma SelectionTextReadsRange(p: Provider, sel: RangeArray, i: int)
    ensures SelectionText(p, sel, i).Ok? <==> RangeReadable(p, sel, i)
    ensures SelectionText(p, sel, i).Ok? ==> SelectionText(p, sel, i).value == RangeText(p, sel, i)
    ensures SelectionText(p, sel, i).Err? ==> SelectionText(p, sel, i).error == RangeError(p, sel, i)
  {
  }

  /** With every selection range readable, the loop prints exactly one line per index, in order. */
  lemma SelectionLinesComplete(p: Provider, sel: RangeArray, n: int)
    requires SelectionReadable(p, sel, n)
    ensures SelectionLines(p, sel, n, 0) == Continue(SelectionOutput(p, sel, n))
  {
    var r := SelectionLines(p, sel, n, 0);
    forall i | 0 <= i < n
      ensures SelectionText(p, sel, i) == Ok(RangeText(p, sel, i))
    {
      SelectionTextReadsRange(p, sel, i);
    }
    assert r.Fatal? ==> SelectionText(p, sel, |r.lines|).Ok?;
    assert r.Continue?;
  }

  /**
    On a match whose selection is readable, the cycle prints the selection lines, then a
    caret line exactly when `GetCaretRange` succeeds with a range whose text can be
    read. A failing `GetCaretRange` is swallowed; a failing caret `GetText` ends the
    program after the selection lines.
   */
  lemma MatchOutput(p: Provider, cond: Cond, tp: TextPattern, sel: RangeArray, n: int)
    requires Matched(p, cond, tp, sel, n) && SelectionReadable(p, sel, n)
    ensures var lines := SelectionOutput(p, sel, n);
      match p.getCaretRange(tp)
      case Err(_) => Step(p, cond) == Continue(lines)
      case Ok(CaretReply(_, None)) => Step(p, cond) == Continue(lines)
      case Ok(CaretReply(_, Some(range))) =>
        match p.getText(range, MaxTextLength)
        case Ok(text) => Step(p, cond) == Continue(lines + [Caret(text)])
        case Err(e) => Step(p, cond) == Fatal(lines, e)
  {
    SelectionLinesComplete(p, sel, n);
  }

  /**
    On a match, the first selection range that cannot be read ends the program with its
    error, after the lines of the ranges before it; the caret is not asked for.
   */
  lemma SelectionFailureIsFatal(p: Provider, cond: Cond, tp: TextPattern, sel: RangeArray, n: int, k: nat)
    requires Matched(p, cond, tp, sel, n)
    requires k < n && !RangeReadable(p, sel, k)
    requires SelectionReadable(p, sel, k)
    ensures Step(p, cond) == Fatal(SelectionOutput(p, sel, k), RangeError(p, sel, k))
  {
    var r := SelectionLines(p, sel, n, 0);
    forall j | 0 <= j < k
      ensures SelectionText(p, sel, j) == Ok(RangeText(p, sel, j))
    {
      SelectionTextReadsRange(p, sel, j);
    }
    SelectionTextReadsRange(p, sel, k);
    forall j | 0 <= j < |r.lines|
      ensures SelectionText(p, sel, j).Ok?
    {
      assert SelectionText(p, sel, j) == Ok(r.lines[j].text);
    }
    assert r.Fatal? && |r.lines| < k ==> SelectionText(p, sel, |r.lines|).Ok?;
    assert r.Fatal? && |r.lines| == k;
    assert r.lines == SelectionOutput(p, sel, k);
  }

  /** Every line of a cycle's output, in order: `- 0`, `- 1`, ... and possibly a final caret line. */
  predicate WellOrdered(lines: seq<Line>) {
    forall k :: 0 <= k < |lines| ==>
      (lines[k].Selection? && lines[k].index == k) || (lines[k].Caret? && k == |lines| - 1)
  }

  /** A cycle prints its selection lines by increasing index, and a caret line only last. */
  lemma StepOutputOrdered(p: Provider, cond: Cond)
    ensures WellOrdered(Step(p, cond).lines)
  {
  }

  /** The provider keeps every text within the bound it was asked for. */
  ghost predicate RespectsBound(p: Provider) {
    forall range, bound :: p.getText(range, bound).Ok? ==> |p.getText(range, bound).value| <= bound
  }

  /** If the provider truncates as asked, no printed text exceeds one million characters. */
  lemma OutputWithinBound(p: Provider, cond: Cond)
    requires RespectsBound(p)
    ensures forall k :: 0 <= k < |Step(p, cond).lines| ==> |Step(p, cond).lines[k].text| <= MaxTextLength
  {
  }

  /** `GetCaretRange` with the "is active" flag replaced: the range is all that is kept. */
  predicate SameRange(a: Result<CaretReply>, b: Result<CaretReply>) {
    a.Ok? == b.Ok? && (a.Ok? ==> a.value.range == b.value.range)
  }

  /**
    The "is active" flag is never read: a provider that answers `GetCaretRange` with
    the same ranges but different flags yields the same cycle.
   */
  lemma CaretIgnoresActiveFlag(p: Provider, cond: Cond, caret: TextPattern -> Result<CaretReply>)
    requires forall tp :: SameRange(caret(tp), p.getCaretRange(tp))
    ensures Step(p.(getCaretRange := caret), cond) == Step(p, cond)
  {
    var q := p.(getCaretRange := caret);
    if p.focus.Ok? {
      var reply := FindFirstElementInSubtree(p.findFirst(p.focus.value, cond));
      if reply.Ok? && reply.value.Some? {
        var e := reply.value.value;
        var pat := p.getPattern(e, TextPattern2Id);
        if pat.Ok? && p.getSelection(pat.value).Ok? && p.length(p.getSelection(pat.value).value).Ok? {
          var sel := p.getSelection(pat.value).value;
          SelectionLinesSameProvider(p, q, sel, p.length(sel).value, 0);
        }
      }
    }
  }

  /** The selection loop reads nothing `GetCaretRange` answers. */
  lemma {:induction false} SelectionLinesSameProvider(p: Provider, q: Provider, sel: RangeArray, n: int, i: nat)
    requires q.getElement == p.getElement && q.getText == p.getText
    ensures SelectionLines(q, sel, n, i) == SelectionLines(p, sel, n, i)
    decreases n - i
  {
    if i < n {
      SelectionLinesSameProvider(p, q, sel, n, i + 1);
    }
  }

  // ---------------------------------------------------------------------------
  // A bounded run of cycles

  datatype RunResult =
    | Polling(output: seq<Line>)
    | Terminated(output: seq<Line>, error: Error)

  /** Runs one cycle per provider snapshot, in order, until a cycle is fatal. */
  function Poll(cycles: seq<Provider>, cond: Cond): (r: RunResult)
    ensures r.Polling? <==> forall k :: 0 <= k < |cycles| ==> Step(cycles[k], cond).Continue?
    decreases |cycles|
  {
    if |cycles| == 0 then Polling([])
    else
      match Step(cycles[0], cond)
      case Fatal(printed, e) => Terminated(printed, e)
      case Continue(lines) =>
        match Poll(cycles[1..], cond)
        case Polling(rest) => Polling(lines + rest)
        case Terminated(rest, e) => Terminated(lines + rest, e)
  }

  /** The lines of the first `m` cycles, each cycle's after those of the cycles before it. */
  function Printed(cycles: seq<Provider>, cond: Cond, m: nat): seq<Line>
    requires m <= |cycles|
    decreases m
  {
    if m == 0 then [] else Step(cycles[0], cond).lines + Printed(cycles[1..], cond, m - 1)
  }

  /**
    What a run prints: the lines of every cycle up to and including the first fatal one,
    in order. The run ends with the error of that cycle, or keeps polling if every cycle
    continues.
   */
  lemma {:induction false} PollOutput(cycles: seq<Provider>, cond: Cond, m: nat)
    requires m <= |cycles|
    requires forall k :: 0 <= k < m ==> Step(cycles[k], cond).Continue?
    ensures m == |cycles| ==> Poll(cycles, cond) == Polling(Printed(cycles, cond, m))
    ensures m < |cycles| && Step(cycles[m], cond).Fatal? ==>
      Poll(cycles, cond) == Terminated(Printed(cycles, cond, m + 1), Step(cycles[m], cond).error)
    decreases m
  {
    if m == 0 {
      if 0 < |cycles| {
        assert Printed(cycles, cond, 1) == Step(cycles[0], cond).lines + [];
      }
    } else {
      var tail := cycles[1..];
      forall k | 0 <= k < m - 1
        ensures Step(tail[k], cond).Continue?
      {
        assert tail[k] == cycles[k + 1];
      }
      assert Step(cycles[0], cond).Continue?;
      PollOutput(tail, cond, m - 1);
      if m < |cycles| {
        assert tail[m - 1] == cycles[m];
      }
    }
  }

  /** A cycle that prints nothing and goes on: focus lost, or the search found nothing. */
  predicate Quiet(p: Provider, cond: Cond) {
    p.focus.Err? || FindFirstElementInSubtree(p.findFirst(p.focus.value, cond)) == Ok(None)
  }

  /** Cycles without focus or without a match never print and never stop the loop. */
  lemma {:induction false} QuietCyclesKeepPolling(cycles: seq<Provider>, cond: Cond)
    requires forall k :: 0 <= k < |cycles| ==> Quiet(cycles[k], cond)
    ensures Poll(cycles, cond) == Polling([])
    decreases |cycles|
  {
    if |cycles| > 0 {
      assert Quiet(cycles[0], cond);
      assert forall k :: 0 <= k < |cycles| - 1 ==> cycles[1..][k] == cycles[k + 1];
      QuietCyclesKeepPolling(cycles[1..], cond);
    }
  }

  /** Once a cycle is fatal, no later cycle runs: what follows it changes nothing. */
  lemma {:induction false} FatalCycleIsLast(cycles: seq<Provider>, later: seq<Provider>, cond: Cond)
    requires |cycles| > 0 && Step(cycles[|cycles| - 1], cond).Fatal?
    requires forall k :: 0 <= k < |cycles| - 1 ==> Step(cycles[k], cond).Continue?
    ensures Poll(cycles + later, cond) == Poll(cycles, cond)
    decreases |cycles|
  {
    assert (cycles + later)[0] == cycles[0];
    if |cycles| > 1 {
      assert (cycles + later)[1..] == cycles[1..] + later;
      assert cycles[1..][|cycles| - 2] == cycles[|cycles| - 1];
      assert forall k :: 0 <= k < |cycles| - 2 ==> cycles[1..][k] == cycles[k + 1];
      FatalCycleIsLast(cycles[1..], later, cond);
    }
  }

  /** A run whose last cycle is its first fatal one ends with that cycle's error, after every cycle's lines. */
  lemma {:induction false} FatalCycleEndsRun(cycles: seq<Provider>, cond: Cond)
    requires |cycles| > 0 && Step(cycles[|cycles| - 1], cond).Fatal?
    requires forall k :: 0 <= k < |cycles| - 1 ==> Step(cycles[k], cond).Continue?
    ensures Poll(cycles, cond).Terminated?
    ensures Poll(cycles, cond).error == Step(cycles[|cycles| - 1], cond).error
    ensures Poll(cycles, cond).output == Printed(cycles, cond, |cycles|)
  {
    PollOutput(cycles, cond, |cycles| - 1);
  }

  /** The whole program: build the text preset condition, then poll. */
  function Program(faults: Faults, cycles: seq<Provider>): (r: RunResult)
    ensures CreateTextAvailCondition(faults).Err? ==> r == Terminated([], CreateTextAvailCondition(faults).error)
    ensures CreateTextAvailCondition(faults).Ok? ==> r == Poll(cycles, And(True, Prop(IsTextPattern2AvailablePropertyId, true)))
  {
    TextAvailConditionBuilt(faults);
    match CreateCondition(faults, TextAvailPredicates)
    case Err(e) => Terminated([], e)
    case Ok(cond) => Poll(cycles, cond)
  }
}
