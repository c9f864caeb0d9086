# Windows UI Automation text-selection prototype — a Dafny model

The prototype polls the Windows UI Automation (UIA) tree. On each cycle it takes the
element holding keyboard focus and searches that element's subtree for the first
element that supports text pattern 2. When it finds one, it prints the text of every
range in the current selection, then the text of the caret range if there is one.

This project models the decision layer of `src/main.rs`. Every UIA call is a foreign
call, so its reply becomes a value that the caller supplies.

- `Uia` (`uia.dfy`): HRESULT status codes, errors, `Result`/`Option`, and opaque
  handles. It also holds the property and pattern identifiers the modelled code uses.
  Their numeric values (30046, 30119, 10024) are those of the Windows SDK header
  `UIAutomationClient.h`.
- `ConditionBuilder` (`conditions.dfy`): `create_condition` as a left fold over the
  `(property, value)` pairs, plus its two presets. Conditions are a `Cond` tree with an
  `Eval` meaning over an element's boolean properties. Which factory calls
  (`CreateTrueCondition`, `CreatePropertyCondition`, `CreateAndCondition`) fail is a
  caller-supplied `Faults` function. The reference definition is `Calls` with
  `FirstFault`: the calls a fault-free run makes, in order, and the first of them that
  fails.
- `SubtreeSearch` (`search.dfy`): `find_first_element_in_subtree`. It turns the
  `FindFirst` reply into three cases: a match, "no match" (an error whose HRESULT is a
  success code), or a genuine error.
- `PollLoop` (`poll.dfy`): one pass through the body of `main`'s loop, as a function of
  that cycle's provider replies (`Provider`). It also has a bounded run of cycles
  (`Poll`) and the whole program (`Program`). A cycle either continues or is fatal.
  Both outcomes carry the lines the cycle printed. The prototype prints each selection
  line as soon as that line's text is read, so a later `?` failure still leaves the
  earlier lines on the console.

## Model

| member | source | states |
|---|---|---|
| ConditionBuilder.CreateCondition | src/main.rs:41-54 | If `CreateTrueCondition` fails, that error is returned. With no pairs, the result is exactly the true condition. |
| ConditionBuilder.CallsUpTo | src/main.rs:46-50 | A fault-free run over n pairs makes 2n+1 factory calls, and the first creates the true condition. |
| ConditionBuilder.CallsOrder | src/main.rs:47-50 | For pair i, call 2i+1 is the property call with that pair. Call 2i+2 is the `And` of the chain of the first i pairs with that pair's leaf. |
| ConditionBuilder.CreateConditionMeetsExpected | src/main.rs:41-54 | The build returns the error of the first failing factory call. If no call fails, it returns the left-nested chain of the pairs. |
| ConditionBuilder.CreateConditionSucceeds | src/main.rs:46-52 | When no factory call fails, the result is `Ok` of the chain of the pairs. |
| ConditionBuilder.AnyFaultAborts | src/main.rs:46-50 | Any failing factory call (true, property or `And`) makes the build return an error and no condition. |
| ConditionBuilder.FirstFaultIsReturned | src/main.rs:46-50 | The error returned is exactly the error of the earliest failing call. |
| ConditionBuilder.ChainLeaves | src/main.rs:47-50 | The leaves of the built chain are the pairs, in input order. |
| ConditionBuilder.ChainShape | src/main.rs:47-50 | The built chain has one `And` node per pair, and every `And` has a property leaf on its right. |
| ConditionBuilder.LeftNestedIsChain | src/main.rs:47-50 | Conversely, every left-nested condition is the chain of its own leaves, so the shape fixes the condition. |
| ConditionBuilder.EvalChain | src/main.rs:46-51 | The chain holds for an element if and only if every `(property, value)` pair matches that element. |
| ConditionBuilder.CreateConditionMeaning | src/main.rs:41-54 | A successfully built condition accepts exactly the elements that match every pair. |
| ConditionBuilder.ChainOrderIndependent | src/main.rs:47-51 | Chains built from permutations of the same pairs accept the same elements. |
| ConditionBuilder.CreateConditionOrderIndependent | src/main.rs:41-54 | Two successful builds from permuted pair lists accept the same elements. |
| ConditionBuilder.TextAvailConditionBuilt | src/main.rs:56-63 | The text preset `CreateTextAvailCondition` succeeds exactly when its three factory calls succeed. It then yields `And(True, IsTextPattern2Available = true)`. |
| ConditionBuilder.EditableTextAvailConditionBuilt | src/main.rs:65-75 | The editable preset `CreateEditableTextAvailCondition` succeeds exactly when its five factory calls succeed. It then yields the chain of (text pattern 2 available = true, value read-only = false). |
| ConditionBuilder.TextAvailMeaning | src/main.rs:56-63 | The text preset accepts exactly the elements that report text pattern 2 as available. |
| ConditionBuilder.EditableTextAvailMeaning | src/main.rs:65-75 | The editable preset also requires the element's value not to be read-only. |
| SubtreeSearch.FindFirstElementInSubtree | src/main.rs:77-95 | A found element becomes `Ok(Some)`. An error with a success HRESULT becomes `Ok(None)`. Any other error is returned unchanged, and every returned error carries a failure code. |
| SubtreeSearch.ClassifyReplyFor | src/main.rs:82-92 | Exactly the outcomes whose errors carry failure codes can be produced, and each is produced by a matching reply. |
| SubtreeSearch.ClassifyLosesOnlyNoMatchDetail | src/main.rs:82-92 | Two replies with the same outcome are either equal or both "no match" errors with success codes. |
| PollLoop.SelectionLines | src/main.rs:140-143 | The selection loop prints one line per index from the start index up to `Length`, in increasing order. Each line's text comes from `GetElement(i)` then `GetText(1_000_000)`. The loop stops at the first index whose text cannot be read, with that index's error. |
| PollLoop.CaretStep | src/main.rs:145-153 | A `GetCaretRange` error, or a null range, is swallowed. A caret line is appended exactly when the call succeeds with a range whose text can be read. The step is fatal exactly when that caret `GetText` fails, with its error. The selection lines are kept. |
| PollLoop.Step | src/main.rs:126-140 | A focus failure prints nothing and the loop continues. A search error with a success code prints nothing and continues. A search error with a failure code is fatal with that error. On a match, a failing `GetCurrentPatternAs`, `GetSelection` or `Length` is fatal with that call's error, before anything is printed. |
| PollLoop.ReadMatch | src/main.rs:135-153 | A failing `GetCurrentPatternAs`, `GetSelection` or `Length` ends the cycle with that call's error and no lines. A cycle that continues prints its selection lines by index and at most one final caret line. |
| PollLoop.SelectionTextReadsRange | src/main.rs:141-142 | The loop reads range i with `GetElement(i)` and then `GetText` on that range with the bound 1,000,000. Its error is `GetElement`'s, or else `GetText`'s. |
| PollLoop.SelectionLinesComplete | src/main.rs:140-143 | With every range readable, the selection lines are exactly `- i <text of range i>` for i in `0..Length`. |
| PollLoop.MatchOutput | src/main.rs:135-153 | On a match, the cycle prints the selection lines. It then prints one caret line only if `GetCaretRange` succeeds with a range. A caret `GetText` error is fatal after the selection lines. |
| PollLoop.SelectionFailureIsFatal | src/main.rs:135-143 | The first selection range that cannot be read ends the program with its error, after the lines of the earlier ranges. |
| PollLoop.StepOutputOrdered | src/main.rs:126-155 | A cycle's lines are selection lines with indices 0, 1, 2, … and at most one caret line, which comes last. |
| PollLoop.OutputWithinBound | src/main.rs:140-151 | If the provider truncates to the bound it is given, no printed text is longer than 1,000,000 characters. |
| PollLoop.CaretIgnoresActiveFlag | src/main.rs:145-153 | Changing only the "is active" flag in the `GetCaretRange` replies leaves the cycle unchanged. |
| PollLoop.Poll | src/main.rs:126-158 | A run keeps polling if and only if every cycle continues. |
| PollLoop.QuietCyclesKeepPolling | src/main.rs:126-158 | Cycles with no focus, or with no match, never print and never stop the loop. |
| PollLoop.PollOutput | src/main.rs:126-158 | A run prints the lines of each cycle in turn, up to and including the first fatal cycle. It then ends with that cycle's error. If no cycle is fatal, it prints every cycle's lines and keeps polling. |
| PollLoop.FatalCycleIsLast | src/main.rs:126-158 | Once a cycle is fatal, the cycles after it change nothing: the run is the same with or without them. |
| PollLoop.FatalCycleEndsRun | src/main.rs:126-158 | The first fatal cycle ends the run with its error, after the lines of every cycle up to and including it. |
| PollLoop.Program | src/main.rs:108-126 | If building the start-up condition fails, the program ends with that error before any cycle runs. Otherwise it polls with the text preset condition. |

## Left out

- `src/focus.rs` (`get_cursor_pos`, `get_cursor_element`, `get_focused_element`) is not part of this model. Those are one-line foreign calls, so the focus lookup's reply is an input (`Provider.focus`).
- `create_bool_variant` is COM `VARIANT` layout. A property leaf carries a plain `bool`.
- COM initialisation and `CoCreateInstance` (src/main.rs:102-106) are foreign process set-up and are not modelled.
- The tree traversal of `FindFirst` is provider behaviour and is not modelled. So are pattern acquisition, `GetSelection`, `Length`, `GetElement` and `GetText` truncation. Their replies are inputs. Truncation appears only as the assumption `RespectsBound` in `OutputWithinBound`.
- `thread::sleep` and the unbounded `loop` are not modelled: `Poll` runs a finite sequence of cycles, one provider snapshot per cycle. The start-up delay and the 200 ms cadence have no counterpart.
- The exact `println!` text is not modelled: a line is `Selection(index, text)` or `Caret(text)`. The commented-out alternative conditions (src/main.rs:109-123, 129-133) are not modelled either.
- The "is active" flag: `GetCaretRange` returns an "is active" out-flag next to the caret range, but the program never reads it (src/main.rs:145-149). A caret line is printed whatever the flag says, and `CaretIgnoresActiveFlag` proves that the flag has no effect.
- `Length` returns a 32-bit integer. The model takes any integer, and a negative length yields no lines, as an empty Rust range `0..n` does.
