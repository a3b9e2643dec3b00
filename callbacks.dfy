/** The string decisions of the callbacks wxgui/app.cpp hands to the engine:
    how `gui_user_input` turns a dialog into a reply, which commands
    `gui_exec_command` echoes, and which file format `gui_draw_plot` picks.
    Dialogs, windows and the engine are not part of this model: what they
    return is passed in, and what the callbacks do to the main frame is
    returned as a list of actions. */
module Callbacks {
  import opened Wrappers
  import opened Text

  // ---------------------------------------------------------------------
  // gui_user_input

  /** What wxMessageBox(prompt, "Query", wxYES_NO) returned. */
  datatype MessageBoxAnswer = Yes | No | OtherAnswer

  const YesNoToken: string := "[y/n]"

  /** `answer` is what the yes/no box returns if it is shown, `typed` what
      the text dialog returns if that one is shown. */
  function UserInput(prompt: string, answer: MessageBoxAnswer, typed: string): (reply: string)
    ensures Contains(prompt, YesNoToken) ==>
              (reply == "y" <==> answer == Yes) &&
              (reply == "n" <==> answer == No) &&
              (reply == "" <==> answer == OtherAnswer)
    ensures !Contains(prompt, YesNoToken) ==>
              reply == [] || (!IsBlank(reply[0]) && !IsBlank(reply[|reply| - 1]))
  {
    if Contains(prompt, YesNoToken) then
      match answer
      case Yes => "y"
      case No => "n"
      case OtherAnswer => ""
    else
      StripSpec(typed);
      Strip(typed)
  }

  /** A prompt with "[y/n]" anywhere in it gets "y", "n" or "", whatever
      was typed: never free text. */
  lemma YesNoPromptNeverFreeText(prompt: string, answer: MessageBoxAnswer, typed: string, typed': string)
    requires exists i: nat :: OccursAt(prompt, YesNoToken, i)
    ensures UserInput(prompt, answer, typed) in {"y", "n", ""}
    ensures UserInput(prompt, answer, typed) == UserInput(prompt, answer, typed')
  {
    ContainsIffOccurs(prompt, YesNoToken);
  }

  /** Any other prompt gets the typed text without its surrounding blanks:
      a slice of it with only blanks cut away, and asking again with the
      reply typed back gives the same reply. */
  lemma FreeTextReplyIsTrimmed(prompt: string, answer: MessageBoxAnswer, typed: string)
    requires forall i: nat :: !OccursAt(prompt, YesNoToken, i)
    ensures var reply := UserInput(prompt, answer, typed);
            (exists i: nat, j: nat :: i <= j <= |typed| && reply == typed[i..j] &&
                                      AllBlank(typed[..i]) && AllBlank(typed[j..])) &&
            UserInput(prompt, answer, reply) == reply
  {
    ContainsIffOccurs(prompt, YesNoToken);
    StripSpec(typed);
    StripIdempotent(typed);
  }

  // ---------------------------------------------------------------------
  // gui_exec_command

  /** UserInterface::Style, the styles of text in the output window. */
  datatype Style = Normal | Warning | Quoted | Input

  /** UserInterface::Status, what execute_line returns. */
  datatype Status = StatusOk | ExecuteError | SyntaxError

  /** What the engine's execute_line does: it returns a status or throws
      ExitRequestedException. */
  datatype LineReply = Executed(status: Status) | ExitRequested

  /** What a callback does to the main frame. */
  datatype FrameAction =
    | OutputText(style: Style, text: string)
    | SetStatusText(text: string)
    | CloseFrame
    | AfterCmdUpdates

  datatype ExecResult = ExecResult(actions: seq<FrameAction>, returned: Status)

  /** The character strncmp reads at index i of a c_str(): the terminating
      NUL past the end. */
  function CharAt(s: string, i: nat): char
  {
    if i < |s| then s[i] else '\0'
  }

  /** `strncmp(a.c_str(), b.c_str(), k) == 0`, looking from index i on: the
      strings agree at each index below k up to and including a NUL. */
  predicate StrncmpEqualFrom(a: string, b: string, i: nat, k: nat)
    decreases k - i
  {
    i >= k || (CharAt(a, i) == CharAt(b, i) && (CharAt(a, i) == '\0' || StrncmpEqualFrom(a, b, i + 1, k)))
  }

  /** `strncmp(s.c_str(), "plot", 4) == 0`: the command is not echoed. */
  predicate IsPlotCommand(s: string)
  {
    StrncmpEqualFrom(s, "plot", 0, 4)
  }

  /** Since "plot" holds no NUL, the strncmp test is exactly "the command
      starts with plot" (a shorter command ends in a NUL that mismatches). */
  lemma PlotCommandIffPrefix(s: string)
    ensures IsPlotCommand(s) <==> HasPrefix(s, "plot")
  {
    if HasPrefix(s, "plot") {
      assert s[0] == 'p' && s[1] == 'l' && s[2] == 'o' && s[3] == 't' by {
        assert s[..4] == "plot";
      }
    }
    if IsPlotCommand(s) {
      assert CharAt(s, 0) == 'p' && CharAt(s, 1) == 'l' && CharAt(s, 2) == 'o' && CharAt(s, 3) == 't';
      assert s[..4] == "plot";
    }
  }

  /** The text echoed for a command. */
  function EchoText(s: string): (t: string)
    ensures |t| == |s| + 5 && t[..4] == "=-> " && t[4..|t| - 1] == s && t[|t| - 1] == '\n'
  {
    "=-> " + s + "\n"
  }

  function ExecCommand(s: string, reply: LineReply): (r: ExecResult)
  {
    var shown := if !IsPlotCommand(s) then OutputText(Input, EchoText(s)) else SetStatusText(s);
    match reply
    case ExitRequested => ExecResult([shown, CloseFrame], StatusOk)
    case Executed(st) => ExecResult([shown, AfterCmdUpdates], st)
  }

  /** A command is echoed to the output window, verbatim and in the input
      style, exactly when it does not start with "plot"; a plot command only
      sets the status text, to itself. */
  lemma EchoedIffNotPlot(s: string, reply: LineReply)
    ensures var r := ExecCommand(s, reply);
            ((exists a :: a in r.actions && a.OutputText?) <==> !HasPrefix(s, "plot")) &&
            (forall a :: a in r.actions && a.OutputText? ==>
                         a.style == Input && a.text[4..|a.text| - 1] == s) &&
            ((exists a :: a in r.actions && a.SetStatusText?) <==> HasPrefix(s, "plot")) &&
            (forall a :: a in r.actions && a.SetStatusText? ==> a.text == s)
  {
    PlotCommandIffPrefix(s);
    var r := ExecCommand(s, reply);
    assert r.actions[0] in r.actions;
  }

  /** An exit request closes the frame and reports success; otherwise the
      engine's status is passed back and the frame is refreshed. */
  lemma ExecCommandStatus(s: string, reply: LineReply)
    ensures var r := ExecCommand(s, reply);
            (reply == ExitRequested <==> CloseFrame in r.actions) &&
            (reply == ExitRequested ==> r.returned == StatusOk && AfterCmdUpdates !in r.actions) &&
            (reply.Executed? ==> r.returned == reply.status && AfterCmdUpdates in r.actions)
  {
  }

  // ---------------------------------------------------------------------
  // gui_draw_plot

  /** UserInterface::RepaintMode. */
  datatype RepaintMode = RepaintImmediately | RepaintLater

  /** The size of the bitmap prepared for export. */
  const ExportWidth: nat := 640
  const ExportHeight: nat := 480

  const NotAnImagePath: string := "Plot path must end with .bmp or .png"

  datatype PlotAction =
    | RefreshPlots(now: bool)
    | SaveBmp(path: string, width: nat, height: nat)
    | SavePng(path: string, width: nat, height: nat)
    | Warn(message: string)

  /** `filename` is None for the NULL pointer. */
  function DrawPlot(mode: RepaintMode, filename: Option<string>): (a: PlotAction)
  {
    match filename
    case None => RefreshPlots(mode == RepaintImmediately)
    case Some(path) =>
      if HasSuffix(Lower(path), ".bmp") then SaveBmp(path, ExportWidth, ExportHeight)
      else if HasSuffix(Lower(path), ".png") then SavePng(path, ExportWidth, ExportHeight)
      else Warn(NotAnImagePath)
  }

  /** Whether the last four characters of path spell ext in any case. */
  predicate EndsWithIgnoringCase(path: string, ext: string)
  {
    |ext| <= |path| && forall i :: 0 <= i < |ext| ==> LowerChar(path[|path| - |ext| + i]) == ext[i]
  }

  /** `path.Lower().EndsWith(ext)` reads as: the last characters of path,
      each lower-cased, spell ext. */
  lemma SuffixOfLowerIffEndsWith(path: string, ext: string)
    ensures HasSuffix(Lower(path), ext) <==> EndsWithIgnoringCase(path, ext)
  {
    if |ext| <= |path| {
      var low, d := Lower(path), |path| - |ext|;
      if HasSuffix(low, ext) {
        forall i | 0 <= i < |ext| ensures LowerChar(path[d + i]) == ext[i] {
          assert low[d..][i] == low[d + i];
        }
      }
      if EndsWithIgnoringCase(path, ext) {
        forall i | 0 <= i < |ext| ensures low[d..][i] == ext[i] {
          assert low[d + i] == LowerChar(path[d + i]);
        }
        assert low[d..] == ext;
      }
    }
  }

  /** No name ends in both. */
  lemma NotBothExtensions(path: string)
    ensures EndsWithIgnoringCase(path, ".bmp") ==> !EndsWithIgnoringCase(path, ".png")
  {
    if EndsWithIgnoringCase(path, ".bmp") {
      assert LowerChar(path[|path| - 4 + 1]) == ".bmp"[1] == 'b';
      assert LowerChar(path[|path| - 4 + 1]) != ".png"[1];
    }
  }

  /** With a file name the plot is written as BMP exactly when the name ends
      in ".bmp" in any case, as PNG exactly when it ends in ".png", under the
      name as given and at 640x480; any other name only draws a warning.
      Without a file name the plots are refreshed, at once exactly in the
      immediate mode. */
  lemma DrawPlotFormat(mode: RepaintMode, filename: Option<string>)
    ensures var a := DrawPlot(mode, filename);
            (filename == None ==> a == RefreshPlots(mode == RepaintImmediately)) &&
            (filename.Some? ==>
              var path := filename.value;
              (a.SaveBmp? <==> EndsWithIgnoringCase(path, ".bmp")) &&
              (a.SavePng? <==> EndsWithIgnoringCase(path, ".png")) &&
              (a.Warn? <==> !EndsWithIgnoringCase(path, ".bmp") && !EndsWithIgnoringCase(path, ".png")) &&
              (a.SaveBmp? || a.SavePng? ==> a.path == path && a.width == 640 && a.height == 480) &&
              (a.Warn? ==> a.message == NotAnImagePath))
  {
    if filename.Some? {
      SuffixOfLowerIffEndsWith(filename.value, ".bmp");
      SuffixOfLowerIffEndsWith(filename.value, ".png");
      NotBothExtensions(filename.value);
    }
  }

  /** The format depends on the name only through its lower-cased form:
      "PLOT.PNG" and "plot.png" are written the same way. */
  lemma DrawPlotIgnoresCase(mode: RepaintMode, p: string, q: string)
    requires Lower(p) == Lower(q)
    ensures DrawPlot(mode, Some(p)).SaveBmp? == DrawPlot(mode, Some(q)).SaveBmp?
    ensures DrawPlot(mode, Some(p)).SavePng? == DrawPlot(mode, Some(q)).SavePng?
    ensures DrawPlot(mode, Some(p)).Warn? == DrawPlot(mode, Some(q)).Warn?
  {
  }
}
