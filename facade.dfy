/** The dialog functions of lib/dialogbind.rb (`guiputs`, `guiyesno`,
    `guierror`, `guiprogress`, `guilicense`, `guiselect`): each one picks the
    request for the current backend, and decodes what comes back. A call is
    modelled as the requests it makes and how it ends, given the answers of
    the outside world. */
module Facade {
  import opened Text
  import opened Effects
  import opened OrderedHash
  import opened ButtonsHash
  import Z = Zenity
  import X = Xmessage
  import M = MacDialog
  import opened Selection

  const DefaultTitle := "DialogBind"
  const DefaultProgressText := "Please wait..."
  const DefaultSelectText := "Choose one of the items below:"

  const QuestionUnsupported := "The selected backend does not support question message boxes."
  const ProgressUnsupported := "The selected backend does not support progress message boxes."
  const LicenseUnsupported := "The selected backend does not support license message boxes."
  const TooManyEntries := "More than 2 entries for guiselect are not supported by xmessage."
  /** What Ruby raises for `nil.downcase`. */
  const NilDowncase := "undefined method `downcase' for nil:NilClass"

  const ErrorPrefix := "ERROR. "
  const Win32ErrorPrefix := "Error. "
  const MissingHead := "File \""
  const MissingTail := "\" does not exist."
  const LicenseCheckbox := "I have read and accepted the terms of the license agreement."
  const LicenseNotice := "Right now, the license agreement will be shown in TextEdit. Close TextEdit using Command-Q to continue,"
  const LicenseQuestion := "Do you accept the terms of the license agreement?"
  const LicensePrompt := "Do you accept the terms of the license agreement below?\n\n"
  const SockRedirect := " > /tmp/zenity.sock 2>/dev/null"

  /** `MessageBoxA` flags: an OK button, or Yes and No buttons. */
  const MB_OK := 0
  const MB_YESNO := 4
  /** What `MessageBoxA` returns for the Yes button. */
  const IDYES := 6

  // ---------------------------------------------------------------------
  // Running the backends.

  /** `zenity(arg)`: one `system` call, whose answer is returned. */
  function RunZenity(w: World, arg: Z.ArgMap): Call
  {
    Call([Shell(Z.Command(arg))], Returned(SystemValue(w.status)))
  }

  /** `xmessage(arg, buttons, file)`: one `system` call, whose answer is
      returned. */
  function RunXmessage(w: World, body: string, bs: X.Buttons, file: bool): Call
  {
    Call([Shell(X.Command(body, bs, file))], Returned(SystemValue(w.status)))
  }

  function RunMac(w: World, text: string, buttons: seq<string>, kind: string, error: bool): Call
  {
    var m := M.RunMacDialog(w, text, buttons, kind, error, false);
    Call(m.trace, Returned(m.value))
  }

  /** A dry run of `macdialog`, then the stored command run with its output
      captured. */
  function CaptureMac(w: World, text: string, buttons: seq<string>): seq<Invocation>
  {
    var m := M.RunMacDialog(w, text, buttons, "dialog", false, true);
    m.trace + [Capture(m.scriptCmd)]
  }

  /** The captured output with every newline removed. */
  function MacOutput(w: World): string
  {
    Delete(w.stdout, '\n')
  }

  /** The hash `{ kind => nil, 'title' => title, 'text' => text }`. */
  function TextArgs(kind: string, title: string, text: string): Z.ArgMap
  {
    [(kind, Z.Bare), ("title", Z.One(Z.Str(title))), ("text", Z.One(Z.Str(text)))]
  }

  function Unsupported(message: string): Call
  {
    Call([], Raised(message))
  }

  // ---------------------------------------------------------------------
  // The dialog functions.

  function GuiPuts(w: World, b: Backend, text: string, title: string := DefaultTitle): Call
  {
    match b
    case XmessageBackend => RunXmessage(w, text, [("OK", 0)], false)
    case ZenityBackend => RunZenity(w, TextArgs("info", title, text))
    case MacOSBackend => RunMac(w, text, ["OK"], "dialog", false)
    case Win32Backend => Call([MsgBox(text, title, MB_OK)], Returned(Bool(true)))
    case OtherBackend(_) => Call([Print(title + ": " + text)], Returned(Bool(true)))
  }

  /** How `guiyesno` reads the AppleScript answer `button returned:Yes`. */
  function YesNoAnswer(output: string): Outcome
  {
    if ':' !in output then Returned(Bool(false))
    else match SplitAt(output, ':', 1)
      case None => Raised(NilDowncase)
      case Some(f) => Returned(Bool(Lower(f) == "yes"))
  }

  function GuiYesNo(w: World, b: Backend, text: string, title: string := DefaultTitle): Call
  {
    match b
    case XmessageBackend => RunXmessage(w, text, [("Yes", 0), ("No", 1)], false)
    case ZenityBackend => RunZenity(w, TextArgs("question", title, text))
    case MacOSBackend => Call(CaptureMac(w, text, ["Yes", "No"]), YesNoAnswer(MacOutput(w)))
    case Win32Backend => Call([MsgBox(text, title, MB_YESNO)], Returned(Bool(w.msgBoxCode == IDYES)))
    case OtherBackend(_) => Unsupported(QuestionUnsupported)
  }

  function GuiError(w: World, b: Backend, text: string, title: string := DefaultTitle): Call
  {
    match b
    case XmessageBackend => RunXmessage(w, ErrorPrefix + text, [("OK", 0)], false)
    case ZenityBackend => RunZenity(w, TextArgs("error", title, text))
    case MacOSBackend => RunMac(w, text, ["OK"], "dialog", true)
    case Win32Backend => Call([MsgBox(Win32ErrorPrefix + text, title, MB_OK)], Returned(Int(w.msgBoxCode)))
    case OtherBackend(_) => Unsupported(QuestionUnsupported)
  }

  function ProgressArgs(title: string, text: string): Z.ArgMap
  {
    [("progress", Z.Bare), ("title", Z.One(Z.Str(title))), ("text", Z.One(Z.Str(text))),
     ("no-cancel", Z.Bare), ("percentage", Z.One(Z.Num(2))), ("pulsate", Z.Bare)]
  }

  function GuiProgress(w: World, b: Backend, text: string := DefaultProgressText, title: string := DefaultTitle): Call
  {
    match b
    case XmessageBackend => RunXmessage(w, text, [], false)
    case ZenityBackend => RunZenity(w, ProgressArgs(title, text))
    case MacOSBackend => RunMac(w, text, [], "notification", false)
    case _ => Unsupported(ProgressUnsupported)
  }

  /** `file.gsub('"', "\\\"")`: a backslash before every double quote. */
  function EscapeQuotes(s: string): (r: string)
  {
    if s == [] then [] else (if s[0] == '"' then ['\\', '"'] else [s[0]]) + EscapeQuotes(s[1..])
  }

  function MissingFile(file: string): string
  {
    MissingHead + file + MissingTail
  }

  /** The `guierror` call for a missing license file, then `false`; an
      exception of `guierror` propagates. */
  function LicenseMissing(e: Call): Call
  {
    if e.outcome.Raised? then e else Call(e.trace, Returned(Bool(false)))
  }

  function LicenseArgs(title: string, file: string): Z.ArgMap
  {
    [("text-info", Z.Bare), ("title", Z.One(Z.Str(title))), ("filename", Z.One(Z.Str(file))),
     ("checkbox", Z.One(Z.Str(LicenseCheckbox)))]
  }

  /** `open -e "<file>"`, which shows the license in TextEdit. */
  function OpenCommand(file: string): string
  {
    "open -e \"" + EscapeQuotes(file) + "\""
  }

  /** The macOS license prompt: the notice, the license opened in
      TextEdit, then the question. */
  function MacLicense(w: World, notice: string, file: string, title: string): Call
  {
    var shown := RunMac(w, notice, ["OK"], "dialog", false);
    var question := GuiYesNo(w, MacOSBackend, LicenseQuestion, title);
    Call(shown.trace + [Shell(OpenCommand(file))] + question.trace, question.outcome)
  }

  function GuiLicense(w: World, b: Backend, file: string, title: string := DefaultTitle): Call
  {
    if !w.fileExists then LicenseMissing(GuiError(w, b, MissingFile(file), title))
    else match b
      case XmessageBackend => RunXmessage(w, file, [("Accept", 0), ("Decline", 1)], true)
      case ZenityBackend => RunZenity(w, LicenseArgs(title, file))
      case MacOSBackend => MacLicense(w, LicenseNotice, file, title)
      case Win32Backend =>
        Call([MsgBox(LicensePrompt + w.fileText, title, MB_YESNO)], Returned(Bool(w.msgBoxCode == IDYES)))
      case OtherBackend(_) => Unsupported(LicenseUnsupported)
  }

  /** `entries[i]`: `nil` past the end. */
  function Entry(entries: seq<string>, i: nat): Value
  {
    if i < |entries| then Str(entries[i]) else Nil
  }

  /** The radiolist rows `[0, entries[0], nil, nil]`, the `nil`s replaced by
      `1, entries[1]` when there are two entries. */
  function SelectItems(entries: seq<string>): seq<Option<Z.Scalar>>
  {
    var first := if |entries| > 0 then Some(Z.Str(entries[0])) else None;
    if |entries| > 1 then [Some(Z.Num(0)), first, Some(Z.Num(1)), Some(Z.Str(entries[1]))]
    else [Some(Z.Num(0)), first, None, None]
  }

  function SelectArgs(text: string, entries: seq<string>): Z.ArgMap
  {
    [("list", Z.Bare), ("radiolist", Z.Bare), ("text", Z.One(Z.Str(text))),
     ("print-column", Z.One(Z.Str("ALL"))), ("column", Z.One(Z.Str("#"))),
     ("column%", Z.One(Z.Str("Items"))), ("", Z.Many(SelectItems(entries))), (SockRedirect, Z.Bare)]
  }

  /** How `guiselect` reads the AppleScript answer `button returned:Item`. */
  function SelectAnswer(output: string): Value
  {
    if ':' !in output then Nil
    else match SplitAt(output, ':', 1)
      case None => Nil
      case Some(f) => Str(f)
  }

  function GuiSelect(w: World, b: Backend, entries: seq<string>, text: string := DefaultSelectText, title: string := DefaultTitle): Call
  {
    if |entries| > 2 then Unsupported(TooManyEntries)
    else match b
      case XmessageBackend =>
        var x := RunXmessage(w, text, EntriesHash(entries), false);
        Call(x.trace, Returned(if Truthy(x.outcome.value) then Entry(entries, 0) else Entry(entries, 1)))
      case ZenityBackend =>
        var z := RunZenity(w, SelectArgs(text, entries));
        Call(z.trace, Returned(if Truthy(z.outcome.value) then Str(Delete(w.sockText, '\n')) else Nil))
      case MacOSBackend =>
        Call(CaptureMac(w, text, entries), Returned(SelectAnswer(MacOutput(w))))
      case _ => Unsupported(LicenseUnsupported)
  }

  // ---------------------------------------------------------------------
  // Which backend supports what.

  /** A backend the functions do not recognise (the global reassigned after
      loading) gets no dialog: `guiputs` prints `title: text` and answers
      `true`; every other function raises before making any request. */
  lemma UnsupportedBackend(w: World, b: Backend, text: string, title: string, entries: seq<string>)
    requires b.OtherBackend?
    ensures GuiPuts(w, b, text, title) == Call([Print(title + ": " + text)], Returned(Bool(true)))
    ensures GuiYesNo(w, b, text, title) == Call([], Raised(QuestionUnsupported))
    ensures GuiError(w, b, text, title) == Call([], Raised(QuestionUnsupported))
    ensures GuiProgress(w, b, text, title) == Call([], Raised(ProgressUnsupported))
    ensures w.fileExists ==> GuiLicense(w, b, text, title) == Call([], Raised(LicenseUnsupported))
    ensures !w.fileExists ==> GuiLicense(w, b, text, title) == Call([], Raised(QuestionUnsupported))
    ensures GuiSelect(w, b, entries, text, title) ==
      Call([], Raised(if |entries| > 2 then TooManyEntries else LicenseUnsupported))
  {
  }

  /** On a recognised backend `guiputs`, `guiyesno` and `guierror` make
      exactly one request, and so does `guiprogress` everywhere but Windows;
      none of them raises, except `guiyesno` on a missing answer field. */
  lemma OneRequest(w: World, b: Backend, text: string, title: string)
    requires !b.OtherBackend?
    ensures |GuiPuts(w, b, text, title).trace| == 1
    ensures GuiPuts(w, b, text, title).outcome.Returned?
    ensures |GuiYesNo(w, b, text, title).trace| == 1
    ensures |GuiError(w, b, text, title).trace| == 1
    ensures GuiError(w, b, text, title).outcome.Returned?
    ensures b != Win32Backend ==> |GuiProgress(w, b, text, title).trace| == 1
    ensures b != Win32Backend ==> GuiProgress(w, b, text, title).outcome.Returned?
  {
  }

  // ---------------------------------------------------------------------
  // Windows.

  /** Under `win32`, yes/no questions and license prompts use flags 4 and
      answer `true` exactly when `MessageBoxA` returns 6; `guiputs` always
      answers `true`; `guierror` answers the code itself; `guiprogress`
      raises without showing anything. */
  lemma Win32Rules(w: World, text: string, title: string, file: string, entries: seq<string>)
    ensures GuiYesNo(w, Win32Backend, text, title) ==
      Call([MsgBox(text, title, 4)], Returned(Bool(w.msgBoxCode == 6)))
    ensures GuiPuts(w, Win32Backend, text, title) == Call([MsgBox(text, title, 0)], Returned(Bool(true)))
    ensures GuiError(w, Win32Backend, text, title) ==
      Call([MsgBox(Win32ErrorPrefix + text, title, 0)], Returned(Int(w.msgBoxCode)))
    ensures GuiProgress(w, Win32Backend, text, title) == Call([], Raised(ProgressUnsupported))
    ensures w.fileExists ==> (GuiLicense(w, Win32Backend, file, title) ==
      Call([MsgBox(LicensePrompt + w.fileText, title, 4)], Returned(Bool(w.msgBoxCode == 6))))
    ensures GuiSelect(w, Win32Backend, entries, text, title) ==
      Call([], Raised(if |entries| > 2 then TooManyEntries else LicenseUnsupported))
  {
  }

  // ---------------------------------------------------------------------
  // Error boxes.

  /** Under xmessage the error text is shown behind `ERROR. ` with the one
      button `OK:0`; under zenity it is the `--error` dialog with the title
      and the text as given. */
  lemma ErrorBoxes(w: World, text: string, title: string)
    ensures |GuiError(w, XmessageBackend, text, title).trace| == 1
    ensures X.ParseCommand(GuiError(w, XmessageBackend, text, title).trace[0].cmd) ==
      Some((X.ButtonItem(("OK", 0)), false, X.Sanitize(ErrorPrefix + text)))
    ensures GuiError(w, ZenityBackend, text, title) ==
      Call([Shell(Z.Command([("error", Z.Bare), ("title", Z.One(Z.Str(title))), ("text", Z.One(Z.Str(text)))]))],
           Returned(SystemValue(w.status)))
  {
    X.CommandRoundTrip(ErrorPrefix + text, [("OK", 0)], false);
  }

  // ---------------------------------------------------------------------
  // The license prompt.

  /** A missing license file makes exactly the one request `guierror` makes
      for `File "<file>" does not exist.` and answers `false`, whatever the
      backend could otherwise do; on an unrecognised backend the exception
      of `guierror` comes out instead. */
  lemma LicenseFileMissing(w: World, b: Backend, file: string, title: string)
    requires !w.fileExists
    ensures GuiLicense(w, b, file, title).trace == GuiError(w, b, MissingFile(file), title).trace
    ensures !b.OtherBackend? ==>
      |GuiLicense(w, b, file, title).trace| == 1 &&
      GuiLicense(w, b, file, title).outcome == Returned(Bool(false))
    ensures b.OtherBackend? ==> GuiLicense(w, b, file, title) == Call([], Raised(QuestionUnsupported))
  {
    if !b.OtherBackend? {
      OneRequest(w, b, MissingFile(file), title);
    }
  }

  /** Under xmessage the license file itself is shown (`-file`) with the
      buttons `Accept:0` and `Decline:1`, and the answer is how `system`
      ends. */
  lemma LicenseXmessage(w: World, file: string, title: string)
    requires w.fileExists
    ensures GuiLicense(w, XmessageBackend, file, title).outcome == Returned(SystemValue(w.status))
    ensures |GuiLicense(w, XmessageBackend, file, title).trace| == 1
    ensures X.ParseCommand(GuiLicense(w, XmessageBackend, file, title).trace[0].cmd) ==
      Some((X.ButtonItem(("Accept", 0)) + ("," + X.ButtonItem(("Decline", 1))), true, X.Sanitize(file)))
  {
    var bs := [("Accept", 0), ("Decline", 1)];
    X.CommandRoundTrip(file, bs, true);
    assert bs[..1] == [("Accept", 0)];
  }

  /** Under macOS the license is announced, opened in TextEdit and then
      asked about: first the notice dialog, then `open -e`, then the
      requests of `guiyesno`, whose answer is the answer. */
  lemma MacLicenseSteps(w: World, notice: string, file: string, title: string)
    ensures MacLicense(w, notice, file, title).trace ==
      [Shell(M.MacCommand(notice, ["OK"], "dialog", false, w.programName) + " > /dev/null"),
       Shell(OpenCommand(file))] + GuiYesNo(w, MacOSBackend, LicenseQuestion, title).trace
    ensures MacLicense(w, notice, file, title).outcome ==
      GuiYesNo(w, MacOSBackend, LicenseQuestion, title).outcome
  {
    var shown := RunMac(w, notice, ["OK"], "dialog", false);
    var a := Shell(M.MacCommand(notice, ["OK"], "dialog", false, w.programName) + " > /dev/null");
    assert shown.trace == [a];
    assert shown.trace + [Shell(OpenCommand(file))] == [a, Shell(OpenCommand(file))];
  }

  /** The escaping works character by character: a `"` becomes `\"`, any
      other character stays. */
  lemma EscapeQuotesChar(c: char)
    ensures EscapeQuotes([c]) == if c == '"' then ['\\', '"'] else [c]
  {
    assert [c][1..] == [];
  }

  lemma {:induction false} EscapeQuotesConcat(a: string, b: string)
    ensures EscapeQuotes(a + b) == EscapeQuotes(a) + EscapeQuotes(b)
  {
    if a == [] {
      assert a + b == b;
    } else {
      assert (a + b)[0] == a[0];
      assert (a + b)[1..] == a[1..] + b;
      EscapeQuotesConcat(a[1..], b);
    }
  }

  /** Every `"` of the file name gets exactly one backslash; a name without
      `"` is used as it is. */
  lemma {:induction false} EscapeQuotesCounts(s: string)
    ensures |EscapeQuotes(s)| == |s| + Count(s, '"')
    ensures '"' !in s ==> EscapeQuotes(s) == s
    ensures Delete(EscapeQuotes(s), '\\') == Delete(s, '\\')
  {
    if s != [] {
      EscapeQuotesCounts(s[1..]);
      var head := if s[0] == '"' then ['\\', '"'] else [s[0]];
      DeleteConcat(head, EscapeQuotes(s[1..]), '\\');
      DeleteConcat([s[0]], s[1..], '\\');
      assert s == [s[0]] + s[1..];
      if s[0] == '"' {
        assert Delete(head, '\\') == ['"'];
      }
    }
  }

  // ---------------------------------------------------------------------
  // Reading AppleScript answers.

  /** Without a colon the answer is `false`; with one, a missing second
      field (nothing but colons after the first) raises `nil.downcase`, and
      otherwise the answer is `true` exactly when the text between the first
      and the second colon is `yes` in any letter case. */
  lemma YesNoDecoding(output: string)
    ensures ':' !in output ==> YesNoAnswer(output) == Returned(Bool(false))
    ensures ':' in output ==>
      (YesNoAnswer(output).Raised? <==> OnlyChar(AfterFirst(output, ':'), ':'))
    ensures ':' in output && !OnlyChar(AfterFirst(output, ':'), ':') ==>
      YesNoAnswer(output) == Returned(Bool(Lower(BeforeFirst(AfterFirst(output, ':'), ':')) == "yes"))
  {
    if ':' in output {
      SplitSecondField(output, ':');
    }
  }

  /** `guiselect` under macOS: `nil` without a colon or without a second
      field, otherwise the text between the first and the second colon. */
  lemma SelectDecoding(output: string)
    ensures SelectAnswer(output) == Nil <==> ':' !in output || OnlyChar(AfterFirst(output, ':'), ':')
    ensures SelectAnswer(output) != Nil ==>
      SelectAnswer(output) == Str(BeforeFirst(AfterFirst(output, ':'), ':'))
  {
    if ':' in output {
      SplitSecondField(output, ':');
    }
  }

  /** `guiyesno` and `guiselect` under macOS make the one request of running
      the stored dry-run command with its output captured. */
  lemma MacQuestions(w: World, text: string, title: string, entries: seq<string>)
    requires |entries| <= 2
    ensures GuiYesNo(w, MacOSBackend, text, title) ==
      Call([Capture(M.MacCommand(text, ["Yes", "No"], "dialog", false, w.programName))], YesNoAnswer(MacOutput(w)))
    ensures GuiSelect(w, MacOSBackend, entries, text, title) ==
      Call([Capture(M.MacCommand(text, entries, "dialog", false, w.programName))], Returned(SelectAnswer(MacOutput(w))))
  {
  }

  // ---------------------------------------------------------------------
  // Choosing one of two entries.

  /** More than two entries raise before any backend is asked. */
  lemma SelectLimit(w: World, b: Backend, entries: seq<string>, text: string, title: string)
    requires |entries| > 2
    ensures GuiSelect(w, b, entries, text, title) == Call([], Raised(TooManyEntries))
  {
  }

  /** Under xmessage a successful exit picks the first entry and any other
      ending the second (`nil` when there is none). */
  lemma SelectXmessage(w: World, entries: seq<string>, text: string, title: string)
    requires |entries| <= 2
    ensures GuiSelect(w, XmessageBackend, entries, text, title) ==
      Call([Shell(X.Command(text, EntriesHash(entries), false))],
           Returned(if w.status == Succeeded then Entry(entries, 0) else Entry(entries, 1)))
  {
  }

  /** Two different entries become the buttons `e0:0,e1:1`; two equal ones
      collapse into the single button `e0:1`. */
  lemma SelectButtons(entries: seq<string>)
    requires |entries| == 2
    ensures entries[0] != entries[1] ==>
      X.ButtonList(EntriesHash(entries)) == X.ButtonItem((entries[0], 0)) + ("," + X.ButtonItem((entries[1], 1)))
    ensures entries[0] == entries[1] ==> EntriesHash(entries) == [(entries[0], 1)]
  {
    var h := EntriesHash(entries);
    if entries[0] != entries[1] {
      DistinctEntries(entries);
      assert h == [(entries[0], 0), (entries[1], 1)];
      assert h[..1] == [(entries[0], 0)];
    } else {
      assert entries[..1] == [entries[0]];
      assert EntriesHash(entries[..1]) == [(entries[0], 0)];
    }
  }

  /** Under zenity the request is the radiolist command, and the answer is
      the side file without newlines on success and `nil` otherwise. */
  lemma SelectZenity(w: World, entries: seq<string>, text: string, title: string)
    requires |entries| <= 2
    ensures GuiSelect(w, ZenityBackend, entries, text, title) ==
      Call([Shell(Z.Command(SelectArgs(text, entries)))],
           Returned(if w.status == Succeeded then Str(Delete(w.sockText, '\n')) else Nil))
  {
  }

  /** The radiolist rows read back as `0`, the first entry and, only with
      two entries, `1` and the second entry, each without `'`. */
  lemma SelectRows(text: string, entries: seq<string>)
    requires |entries| <= 2
    ensures Z.ParseTokens(Z.Segment(SelectArgs(text, entries), "")) ==
      Some(["0"] + (if |entries| > 0 then [Delete(entries[0], '\'')] else []) +
           (if |entries| > 1 then ["1", Delete(entries[1], '\'')] else []))
  {
    var arg := SelectArgs(text, entries);
    var items := SelectItems(entries);
    assert Lookup(arg, "") == Some(Z.Many(items)) by {
      assert arg[6] == ("", Z.Many(items));
      assert forall p :: 0 <= p < 6 ==> arg[p].0 != "";
    }
    assert Z.Segment(arg, "") == Z.ArrayTokens(items);
    Z.ArrayTokensRoundTrip(items);
    SelectTexts(entries);
  }

  lemma SelectTexts(entries: seq<string>)
    ensures Z.Texts(SelectItems(entries)) ==
      ["0"] + (if |entries| > 0 then [Delete(entries[0], '\'')] else []) +
      (if |entries| > 1 then ["1", Delete(entries[1], '\'')] else [])
  {
    var first := if |entries| > 0 then Some(Z.Str(entries[0])) else None;
    assert Z.ItemTexts(Some(Z.Num(0))) == ["0"] by {
      assert IntToString(0) == NatToString(0) == [DigitChar(0)];
      assert Delete("0", '\'') == "0";
    }
    assert Z.ItemTexts(Some(Z.Num(1))) == ["1"] by {
      assert IntToString(1) == NatToString(1) == [DigitChar(1)];
      assert Delete("1", '\'') == "1";
    }
    assert Z.ItemTexts(first) == if |entries| > 0 then [Delete(entries[0], '\'')] else [];
    if |entries| > 1 {
      Z.TextsOfFour(Some(Z.Num(0)), first, Some(Z.Num(1)), Some(Z.Str(entries[1])));
    } else {
      Z.TextsOfFour(Some(Z.Num(0)), first, None, None);
    }
  }

  /** In the radiolist hash `'column%' => 'Items'` is written as a second
      `--column='#'`, and the redirection key as the bare flag
      `-- > /tmp/zenity.sock 2>/dev/null`. */
  lemma SelectQuirks(text: string, entries: seq<string>)
    ensures Z.Segment(SelectArgs(text, entries), "column%") == Z.Segment(SelectArgs(text, entries), "column")
    ensures Z.Segment(SelectArgs(text, entries), SockRedirect) == "--" + SockRedirect
  {
    var arg := SelectArgs(text, entries);
    SelectArgsKeys(text, entries);
    assert "column%" == "column" + "%";
    Z.PercentKeyRepeatsPlainKey(arg, 4, 5);
    Z.PlainKeySegment(arg, 7);
  }

  lemma SelectArgsKeys(text: string, entries: seq<string>)
    ensures IsHash(SelectArgs(text, entries))
  {
  }
}
