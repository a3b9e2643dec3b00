# fityk GUI shell: command-line file reordering and callback decisions

This project models, in Dafny, the parts of fityk's graphical front end
(`wxgui/app.cpp`) that take decisions of their own. The rest of that file is
wxWidgets and fitting-engine glue.

The modelled parts:

- **`find_common_prefix_length`**: the nested loop that finds how long a
  prefix all command-line paths share.
- **`less_filename`**: the comparator that the `-r` ("reorder") switch sorts
  by. At the first index where the paths may differ, it compares two names by
  the number that starts there when both have a digit, and as plain strings
  otherwise. So `50.xy` sorts before `100.xy`.
- **The argument step of `FApp::process_argv`**:
  - it runs the `-c` script text;
  - it collects the positional parameters and reorders them when asked;
  - it hands each one to the engine in order;
  - the first load error ends the run with `exit(1)`, and an exit request
    from a script makes `OnInit` return false.
- **The callbacks the engine calls back into the GUI:**
  - `gui_user_input` maps a `[y/n]` prompt to `"y"`/`"n"`/`""`, and any
    other prompt to the typed text with its surrounding blanks stripped;
  - `gui_exec_command` echoes every command except those starting with
    `plot`;
  - `gui_draw_plot` picks BMP or PNG from the file extension, ignoring case;
  - `gui_hint` keeps a function-static window disabler;
  - `ui_state` emits the background-subtraction statement.
- **`write_white_config`**: the colour table of the "white" profile.

Modules, one per component: `Text` (character and string primitives the code
relies on), `CommonPrefix`, `FilenameOrder`, `Argv`, `Callbacks`, `GuiState`
(the state of `gui_hint` and `ui_state`, a class), `WhiteConfig`, and
`Wrappers` (an `Option` type).

Engine calls are parameters of the model, not code:

- `exec_and_log` is a function `string -> Reply`;
- `process_cmd_line_arg` is a function `(seq<string>, string) -> Reply`. Its
  first argument is the list of paths already loaded, so the engine's answer
  may depend on what came before;
- `execute_line` is a `LineReply` value;
- dialog results (`wxMessageBox`, `wxGetTextFromUser`) are passed in;
- effects on the main frame come back as data (`FrameAction`, `PlotAction`).

Two behaviours of the code that a reader might not expect, which the model
keeps:

- `busy` is not reference-counted. A second non-empty `busy` overwrites the
  static `wd` pointer without deleting the earlier disabler. A later empty
  `busy` deletes only the newest one, so the windows stay disabled.
  `GuiState.Gui.Hint` records this in `liveDisablers` and states when the
  windows are re-enabled.
- The comparison does not read the whole suffix as a number: `strtod` stops
  at the first character that cannot continue a number. The model uses the
  value of the leading digit run. That agrees with `strtod` when three things
  hold: the run is followed by none of `.`, `e` and `E`; the run is not a lone
  `0` followed by `x` or `X`, a hexadecimal form; and the run has at most 15
  digits, so its value is exact in a double.

## Model

| member | source | states |
|---|---|---|
| CommonPrefix.FindCommonPrefixLength | wxgui/app.cpp:346-354 | For two or more paths (the source asserts this): the result is no longer than any path; every path agrees with the first one below it; and it is maximal: the first path ends there, or some later path ends there, or some later path differs from the first there. It also equals the reference definition `CommonPrefixLength`. |
| CommonPrefix.CommonPrefixLengthCorrect | wxgui/app.cpp:349-353 | The reference definition (the minimum over later paths of the longest common prefix with the first path) meets the bound, agreement and maximality conditions. |
| CommonPrefix.CommonPrefixLengthUnique | wxgui/app.cpp:349-353 | At most one length meets the bound, agreement and maximality conditions. |
| CommonPrefix.Lcp | wxgui/app.cpp:351 | The longest common prefix of two strings: both strings agree below it, and at it one string ends or the characters differ. |
| FilenameOrder.LessFilename | wxgui/app.cpp:336-343 | `less_filename(n)(x, y)`: by numeric key when `x[n]` and `y[n]` are both digits (the NUL past the end is none), by string order otherwise. Its properties are stated in `BandOrder`, `Irreflexive`, `Asymmetric`, `Transitive`, `Incomparable` and `ShorterNumberSortsFirst`. |
| FilenameOrder.NumericKey | wxgui/app.cpp:339-340 | The stand-in for `strtod` of the suffix from n: the value of its leading digit run, as `LeadingDigits` states. `ShorterNumberSortsFirst` and `RunFiftyBeforeRunHundred` state what it orders. |
| FilenameOrder.LeadingDigits | wxgui/app.cpp:340 | The numeric key is read from the longest run of digits that starts the suffix: a prefix of the suffix, all digits, followed by the end or by a non-digit. |
| FilenameOrder.ShorterNumberSortsFirst | wxgui/app.cpp:338-340 | When both names have a digit at index n, and the longer number has no leading zero, the name whose number has fewer digits is less, and not the other way round. |
| FilenameOrder.RunFiftyBeforeRunHundred | wxgui/app.cpp:55 | `run-50.xy` is less than `run-100.xy` under the comparator with prefix length 4, although plain string order puts `run-100.xy` first. |
| FilenameOrder.BandOrder | wxgui/app.cpp:338-342 | For names sharing the first n characters, the comparator ranks them by what stands at index n: end or a character below '0', then digits, then characters above '9'. Across these bands the comparator follows the rank. |
| FilenameOrder.Irreflexive | wxgui/app.cpp:336-343 | No name is less than itself. |
| FilenameOrder.Asymmetric | wxgui/app.cpp:336-343 | If x is less than y, then y is not less than x. |
| FilenameOrder.Transitive | wxgui/app.cpp:336-343 | On names sharing the first n characters, the comparator is transitive. |
| FilenameOrder.Incomparable | wxgui/app.cpp:338-342 | Two names are unordered both ways exactly when they are equal, or both have a digit at n with the same number there. So the comparator is a strict weak order, as `std::sort` needs. |
| FilenameOrder.Insert | wxgui/app.cpp:369 | Inserting adds exactly one copy of the name to the sequence's contents. |
| FilenameOrder.SortFilenames | wxgui/app.cpp:369 | The sorted sequence is a permutation of the input. |
| FilenameOrder.InsertSorted | wxgui/app.cpp:369 | Inserting a name into a sorted sequence of names with the same prefix keeps it sorted. |
| FilenameOrder.SortFilenamesSorted | wxgui/app.cpp:369 | For names sharing a prefix of length n, the result is sorted: no name is less, under `less_filename(n)`, than a name before it. |
| Argv.Dispatch | wxgui/app.cpp:371-379 | The engine sees a prefix of the vector, in vector order, each path given the list of paths loaded before it. Every path but the last one seen loaded. The run completes exactly when all were seen and all loaded. Otherwise the last path seen is the one that failed (with its message) or that asked to exit, and no later path is attempted. |
| Argv.StopAtFirstFailure | wxgui/app.cpp:371-378 | When every path before path i loaded and path i did not, the paths up to and including i were attempted in order, and the outcome records path i with its error message, or the exit request. |
| Argv.ArgOrder | wxgui/app.cpp:366-370 | The order in which `process_argv` hands the paths on. `ArgOrderKeepsOrder`, `ArgOrderIsPermutation`, `ArgOrderSorted` and `FiftyBeforeHundred` state it. |
| Argv.OutcomeEffect | wxgui/app.cpp:371-378 | What each outcome shows outside: a load error writes `ErrorReport(message)` to standard error and calls `exit(1)`; an exit request writes nothing and makes `OnInit` stop; a complete run writes nothing and goes on. `DispatchEffect` ties it to the engine's replies. |
| Argv.FirstNotDoneUnique | wxgui/app.cpp:371-378 | At most one path is the first that did not load. |
| Argv.LastAttemptedIsFirstNotDone | wxgui/app.cpp:371-378 | When the run stops early, the last path attempted is the first one that did not load, and its reply (an error with the recorded message, or an exit request) decides the outcome. |
| Argv.DispatchEffect | wxgui/app.cpp:371-378 | Stated in terms of the engine's replies alone: the run goes on exactly when every path loads. `exit(1)` is called exactly when the first path that does not load fails with an error, and the line on standard error is then "Error: " with that error's message. In every other case nothing is written and `exit` is not called. |
| Argv.ProcessArgv | wxgui/app.cpp:359-379 | If the `-c` text makes the engine ask to exit, nothing is loaded, nothing is written to standard error, `exit` is not called and `OnInit` stops. Otherwise the paths reach the engine, as `Dispatch` states, in `ArgOrder`: the parameters as given, sorted only with `-r` and two or more paths. The error line, the `exit(1)` and whether the run goes on are then as `DispatchEffect` states. |
| Argv.ArgOrderKeepsOrder | wxgui/app.cpp:368 | Without `-r`, or with fewer than two paths, the order is the command-line order. |
| Argv.ArgOrderIsPermutation | wxgui/app.cpp:366-370 | Reordering is a permutation of the positional parameters. |
| Argv.ArgOrderSorted | wxgui/app.cpp:368-369 | With `-r` and two or more paths, the order is sorted by `less_filename` built from the paths' common prefix length. |
| Argv.FiftyBeforeHundred | wxgui/app.cpp:55 | `-r` turns `100.xy 50.xy` into `50.xy 100.xy`; without `-r` the order stays. |
| Argv.ErrorReport | wxgui/app.cpp:376 | The line written to standard error is "Error: ", then the message, then a newline. |
| Callbacks.UserInput | wxgui/app.cpp:70-84 | For a prompt containing `[y/n]`, the reply is "y" exactly for Yes, "n" exactly for No, and "" exactly for any other answer. For other prompts, the reply neither starts nor ends with a blank. |
| Callbacks.YesNoPromptNeverFreeText | wxgui/app.cpp:72-79 | A prompt with `[y/n]` anywhere in it always gets "y", "n" or "", whatever was typed. |
| Callbacks.FreeTextReplyIsTrimmed | wxgui/app.cpp:80-83 | For any other prompt, the reply is a slice of the typed text with only blanks cut from each end, and typing the reply again gives the same reply. |
| Callbacks.PlotCommandIffPrefix | wxgui/app.cpp:143 | `strncmp(s.c_str(), "plot", 4) == 0` holds exactly when s starts with "plot". The test reads the terminating NUL of a shorter command. |
| Callbacks.EchoText | wxgui/app.cpp:145 | The echoed text is "=-> ", then the command verbatim, then a newline. |
| Callbacks.ExecCommand | wxgui/app.cpp:138-159 | `gui_exec_command`: the echo or status text, then closing the frame or the after-command update, and the status returned. `EchoedIffNotPlot` and `ExecCommandStatus` state its contract. |
| Callbacks.EchoedIffNotPlot | wxgui/app.cpp:143-147 | A command is echoed, in the input style and verbatim, exactly when it does not start with "plot". A plot command only sets the status text, to itself. |
| Callbacks.ExecCommandStatus | wxgui/app.cpp:148-158 | An exit request closes the frame and returns ok, with no after-command update. Otherwise the engine's status is returned and the frame is updated. |
| Callbacks.DrawPlot | wxgui/app.cpp:87-103 | `gui_draw_plot`'s decision. `DrawPlotFormat` and `DrawPlotIgnoresCase` state its contract. |
| Callbacks.SuffixOfLowerIffEndsWith | wxgui/app.cpp:96-98 | `path.Lower().EndsWith(ext)` holds exactly when the last characters of path, each lower-cased, spell ext. |
| Callbacks.NotBothExtensions | wxgui/app.cpp:96-99 | No path ends in both ".bmp" and ".png", ignoring case. |
| Callbacks.DrawPlotFormat | wxgui/app.cpp:87-102 | With no file name, the plots are refreshed, at once exactly in immediate mode. With a name ending, in any case, in ".bmp", the plot is saved as BMP; in ".png", as PNG. Either way the name is kept as given and the size is 640x480. Any other name only gets the warning "Plot path must end with .bmp or .png". |
| Callbacks.DrawPlotIgnoresCase | wxgui/app.cpp:96-98 | Two names that lower-case alike get the same format decision. |
| GuiState.UiStateRoundTrip | wxgui/app.cpp:127-134 | The ui-state text is empty exactly when no background is subtracted. Reading the statement back recovers the source id whenever that id is on one line. |
| GuiState.Gui.constructor | wxgui/app.cpp:108 | The static disabler starts as NULL and no disabler is alive. |
| GuiState.Gui.Hint | wxgui/app.cpp:106-124 | "busy" with a value creates a disabler and stores it: one more disabler alive. "busy" without a value deletes the stored one, if any, and clears it. "yield" yields once. "bg_subtracted_from" sets the source id. Any other key adds the warning "[GUI] unknown property: " followed by the key. Nothing else changes, and the stored disabler is always one of the live ones. The windows are disabled after a non-empty "busy". After an empty "busy" they are enabled again only if no earlier disabler leaked. |
| GuiState.Gui.UiState | wxgui/app.cpp:127-134 | Returns "\nui bg_subtracted_from =" followed by the source id, or "" when there is none. The id reads back from the text when it has no line break. |
| WhiteConfig.WhiteEntries | wxgui/app.cpp:172-187 | The 16 writes of `write_white_config`, in source order, with their colours. `WhiteKeysDistinct` and `WhiteProfile` state what they leave in the profile. |
| WhiteConfig.WriteAll | wxgui/app.cpp:170-188 | After the writes, the profile's keys are the old keys plus every key written. |
| WhiteConfig.WriteAllLookup | wxgui/app.cpp:170-188 | With distinct keys, each key ends up with the colour written for it. |
| WhiteConfig.WriteAllUntouched | wxgui/app.cpp:170-188 | A key that no write names keeps its colour. |
| WhiteConfig.WriteAllDistinct | wxgui/app.cpp:170-188 | Writing entries with distinct keys into an empty profile gives exactly those keys, each with its colour. |
| WhiteConfig.WhiteProfile | wxgui/app.cpp:172-187 | A fresh "white" profile holds exactly the 16 listed keys, each with the listed colour. |
| Text.LexLess | wxgui/app.cpp:342 | `std::string`'s `operator<` (character codes compared position by position, a proper prefix first). Its properties are stated in `LexLessIffDecided`, `LexIrreflexive`, `LexAsymmetric`, `LexTransitive`, `LexTotal` and `LexDropShared`. |
| Text.LexLessIffDecided | wxgui/app.cpp:342 | `std::string`'s `operator<` holds exactly when some position decides it: the strings agree before that position, and there the first string has ended while the second goes on, or the first has the smaller character. |
| Text.LexIrreflexive | wxgui/app.cpp:342 | No string is less than itself. |
| Text.LexAsymmetric | wxgui/app.cpp:342 | String order is asymmetric. |
| Text.LexTransitive | wxgui/app.cpp:342 | String order is transitive. |
| Text.LexTotal | wxgui/app.cpp:342 | Of two different strings, one is less than the other. |
| Text.LexDropShared | wxgui/app.cpp:342 | A shared prefix does not change the comparison. |
| Text.Contains | wxgui/app.cpp:72 | `contains_element` on strings, a substring search, characterised by `ContainsIffOccurs`. |
| Text.ContainsIffOccurs | wxgui/app.cpp:72 | `contains_element(prompt, "[y/n]")` holds exactly when the token occurs in the prompt at some position. |
| Text.FirstNonBlank | wxgui/app.cpp:82 | Everything before the result is blank, and the character at the result, if any, is not. |
| Text.EndNonBlank | wxgui/app.cpp:82 | Everything from the result on is blank, and the character just before it, if any, is not. |
| Text.Strip | wxgui/app.cpp:82 | `strip_string`, characterised by `StripSpec` and `StripIdempotent`. |
| Text.StripSpec | wxgui/app.cpp:82 | `strip_string` returns a slice of its input with only blanks around it, and the slice neither starts nor ends with a blank. |
| Text.StripIdempotent | wxgui/app.cpp:82 | Stripping twice is the same as stripping once. |
| Text.Lower | wxgui/app.cpp:96 | Lower-casing keeps the length and lower-cases each character. |

## Left out

- All windowing, dialog, busy-cursor, tooltip and event-loop behaviour (`FFrame`, `wxMessageBox`, `wxGetTextFromUser`, `wxYield`, `wxBusyCursor`, `wxWindowDisabler`). Dialog results are inputs; frame effects are returned as data or recorded as counters.
- Command-line parsing by `wxCmdLineParser`, the `-h`/`-V`/`--full-version` early exits and the rest of `FApp::OnInit` (signal handler, config directory creation, profile loading, the startup script). These are toolkit, filesystem and signal plumbing. `CmdLine` holds only what `process_argv` reads.
- Config-file I/O and migration (`wxFileConfig`, `wxMkdir`, `wxRenameFile`), and `cfg_write_color`'s encoding. Only the colour table of `write_white_config` is modelled, as a map.
- The SIGINT handler and the `user_interrupt` flag: their point is asynchronous signalling.
- The engine itself (`execute_line`, `exec_and_log`, `exec_fityk_script`, `process_cmd_line_arg`) is not part of this model; its replies are parameters. `exec_and_log` is taken to report its own errors, so only an exit request from it matters (its status is discarded at line 363).
- The zoom to all datasets after loading (`dk.count()`, `view.change_view`, lines 387-392): engine state that is not shown.
- Bitmap preparation and saving (lines 94-99): only the format decision, the path and the 640x480 size are modelled.
- `get_help_url`, `get_sample_path`, `MacOpenFile`, `open_new_instance` and the Mac-only `OSXStoreOpenFiles` workaround. They depend on filesystem existence checks and on the platform.
- `exit(1)` ends the process. Here it is the `LoadError` outcome, whose `OutcomeEffect` records the error line and the status `FatalExitCode`. That nothing runs after it is not modelled.
- FilenameOrder.NumericKey: `strtod` is modelled as the exact natural-number value of the leading digit run. Two things are not modelled:
  - Fractions, exponents, hexadecimal forms (`0x10.xy` is 16 for `strtod` and 0 here) and infinities. So when another path makes the common prefix end before the digits, names whose numbers differ only after a decimal point compare equal here, whereas `strtod` orders them. For example, with `5.1.xy`, `5.2.xy` and `7.xy` the prefix length is 0, both names get the key 5, and `strtod` reads 5.1 and 5.2. With only `5.1.xy` and `5.2.xy` the prefix length is 2, and both readings order them the same way.
  - The rounding to a double. Above 2^53 `strtod` can map different digit runs to the same value, such as `9007199254740993` and `9007199254740992`, which the model orders.
- FilenameOrder.SortFilenames: `std::sort`'s algorithm and its in-place update of the vector are not shown. A functional insertion sort with the same guarantees (a sorted permutation) stands in for it. Among names the comparator leaves unordered, the model fixes one order where `std::sort` may choose another.
- CommonPrefix.FindCommonPrefixLength: the conversion of the `size_t` length to `int` (and so paths longer than 2^31 characters) is not modelled.
- Text.Lower: `wxString::Lower` is modelled for ASCII letters only. Other letters are left unchanged.
- `strip_string` and `contains_element` belong to fityk's common helpers, which are not part of this model. They are read as "cut the C-locale white space from both ends" and "substring search".
- The background manager (`bgm()->set_bg_subtracted` / `get_bg_subtracted`) is not part of this model. It is taken to report the last source id it was given.
- GuiState.UiStateRoundTrip: `ReadUiState` stands in for the engine's parsing of the replayed statement, which is not shown.
