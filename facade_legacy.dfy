/** The dialog functions of the older, two-backend dialogbind.rb. Its
    `zenity`, `xmessage` and `entry2buttonshash` are the same code as in
    lib/dialogbind.rb and are shared with the newer model; only the dialog
    functions differ: they know xmessage and zenity and treat every other
    backend name alike. */
module LegacyFacade {
  import opened Text
  import opened Effects
  import opened ButtonsHash
  import opened Selection
  import F = Facade

  const ErrorUnsupported := "The selected backend does not support error message boxes."

  /** Anything but xmessage and zenity, including `macos` and `win32`, which
      this version does not know. */
  predicate Unknown(b: Backend)
  {
    b != XmessageBackend && b != ZenityBackend
  }

  function LegacyPuts(w: World, b: Backend, text: string, title: string := F.DefaultTitle): Call
  {
    match b
    case XmessageBackend => F.RunXmessage(w, text, [("OK", 0)], false)
    case ZenityBackend => F.RunZenity(w, F.TextArgs("info", title, text))
    case _ => Call([Print(title + ": " + text)], Returned(Bool(true)))
  }

  function LegacyYesNo(w: World, b: Backend, text: string, title: string := F.DefaultTitle): Call
  {
    match b
    case XmessageBackend => F.RunXmessage(w, text, [("Yes", 0), ("No", 1)], false)
    case ZenityBackend => F.RunZenity(w, F.TextArgs("question", title, text))
    case _ => F.Unsupported(F.QuestionUnsupported)
  }

  function LegacyError(w: World, b: Backend, text: string, title: string := F.DefaultTitle): Call
  {
    match b
    case XmessageBackend => F.RunXmessage(w, F.ErrorPrefix + text, [("OK", 0)], false)
    case ZenityBackend => F.RunZenity(w, F.TextArgs("error", title, text))
    case _ => F.Unsupported(ErrorUnsupported)
  }

  function LegacyProgress(w: World, b: Backend, text: string := F.DefaultProgressText, title: string := F.DefaultTitle): Call
  {
    match b
    case XmessageBackend => F.RunXmessage(w, text, [], false)
    case ZenityBackend => F.RunZenity(w, F.ProgressArgs(title, text))
    case _ => F.Unsupported(F.ProgressUnsupported)
  }

  function LegacyLicense(w: World, b: Backend, file: string, title: string := F.DefaultTitle): Call
  {
    if !w.fileExists then F.LicenseMissing(LegacyError(w, b, F.MissingFile(file), title))
    else match b
      case XmessageBackend => F.RunXmessage(w, file, [("Accept", 0), ("Decline", 1)], true)
      case ZenityBackend => F.RunZenity(w, F.LicenseArgs(title, file))
      case _ => F.Unsupported(F.LicenseUnsupported)
  }

  /** Past the two known backends `guiselect` falls through to `nil`. */
  function LegacySelect(w: World, b: Backend, entries: seq<string>, text: string := F.DefaultSelectText, title: string := F.DefaultTitle): Call
  {
    if |entries| > 2 then F.Unsupported(F.TooManyEntries)
    else match b
      case XmessageBackend =>
        var x := F.RunXmessage(w, text, EntriesHash(entries), false);
        Call(x.trace, Returned(if Truthy(x.outcome.value) then F.Entry(entries, 0) else F.Entry(entries, 1)))
      case ZenityBackend =>
        var z := F.RunZenity(w, F.SelectArgs(text, entries));
        Call(z.trace, Returned(if Truthy(z.outcome.value) then Str(Delete(w.sockText, '\n')) else Nil))
      case _ => Call([], Returned(Nil))
  }

  // ---------------------------------------------------------------------
  // Against the newer version.

  /** On xmessage and zenity the older functions make the same requests and
      answer the same as the newer ones. */
  lemma SameOnKnownBackends(w: World, b: Backend, text: string, title: string)
    requires !Unknown(b)
    ensures LegacyPuts(w, b, text, title) == F.GuiPuts(w, b, text, title)
    ensures LegacyYesNo(w, b, text, title) == F.GuiYesNo(w, b, text, title)
    ensures LegacyError(w, b, text, title) == F.GuiError(w, b, text, title)
    ensures LegacyProgress(w, b, text, title) == F.GuiProgress(w, b, text, title)
  {
  }

  lemma SameLicense(w: World, b: Backend, file: string, title: string)
    requires !Unknown(b)
    ensures LegacyLicense(w, b, file, title) == F.GuiLicense(w, b, file, title)
  {
  }

  lemma SameSelect(w: World, b: Backend, entries: seq<string>, text: string, title: string)
    requires !Unknown(b)
    ensures LegacySelect(w, b, entries, text, title) == F.GuiSelect(w, b, entries, text, title)
  {
  }

  /** Every other backend gets no dialog: `guiputs` prints `title: text`,
      `guiselect` answers `nil` (after the entry limit), and the rest raise
      before any request; a missing license file raises the error-box
      message of `guierror`. */
  lemma UnknownBackend(w: World, b: Backend, text: string, title: string, entries: seq<string>)
    requires Unknown(b)
    ensures LegacyPuts(w, b, text, title) == Call([Print(title + ": " + text)], Returned(Bool(true)))
    ensures LegacyYesNo(w, b, text, title) == Call([], Raised(F.QuestionUnsupported))
    ensures LegacyError(w, b, text, title) == Call([], Raised(ErrorUnsupported))
    ensures LegacyProgress(w, b, text, title) == Call([], Raised(F.ProgressUnsupported))
    ensures LegacyLicense(w, b, text, title) ==
      Call([], Raised(if w.fileExists then F.LicenseUnsupported else ErrorUnsupported))
    ensures LegacySelect(w, b, entries, text, title) ==
      if |entries| > 2 then Call([], Raised(F.TooManyEntries)) else Call([], Returned(Nil))
  {
  }

  /** Where the versions part: a macOS or Windows backend gets a dialog from
      the newer `guiputs` and `guierror` but a print or an exception from the
      older ones, and an unrecognised name makes the two `guierror`s raise
      different messages. */
  lemma VersionsDiffer(w: World, text: string, title: string, name: string)
    ensures forall b | b == MacOSBackend || b == Win32Backend ::
      F.GuiPuts(w, b, text, title).trace != LegacyPuts(w, b, text, title).trace
    ensures forall b | b == MacOSBackend || b == Win32Backend ::
      F.GuiError(w, b, text, title).outcome.Returned? && LegacyError(w, b, text, title).outcome.Raised?
    ensures F.GuiError(w, OtherBackend(name), text, title).outcome.message !=
      LegacyError(w, OtherBackend(name), text, title).outcome.message
  {
  }
}
