/** Choosing the dialog backend when the library is loaded
    (lib/dialogbind.rb, and the two-backend version in dialogbind.rb): a
    chain of probes picks a default, `DIALOGBIND_BACKEND` overrides it, and a
    name outside the supported list stops the load with an error. */
module Selection {
  import opened Text
  import opened Effects

  /** The value of `$dialogbind_dialog_backend` as the dialog functions
      test it: one of the four names they compare with, or anything else. */
  datatype Backend = XmessageBackend | ZenityBackend | MacOSBackend | Win32Backend | OtherBackend(name: string)

  function BackendOf(name: string): (b: Backend)
    ensures b == XmessageBackend <==> name == "xmessage"
    ensures b == ZenityBackend <==> name == "zenity"
    ensures b == MacOSBackend <==> name == "macos"
    ensures b == Win32Backend <==> name == "win32"
    ensures b.OtherBackend? ==> b.name == name
  {
    if name == "xmessage" then XmessageBackend
    else if name == "zenity" then ZenityBackend
    else if name == "macos" then MacOSBackend
    else if name == "win32" then Win32Backend
    else OtherBackend(name)
  }

  /** What the load-time probes find: how `command -v zenity` ends,
      `ENV['OS']` (absent or a value), the output of `uname`, and
      `ENV['DIALOGBIND_BACKEND']` (absent or a value). */
  datatype Probe = Probe(zenityProbe: Status, os: Option<string>, uname: string, override: Option<string>)

  datatype Loaded = Loaded(backend: string) | LoadError(message: string)

  const Available: seq<string> := ["xmessage", "zenity", "macos", "win32"]
  const LegacyAvailable: seq<string> := ["xmessage", "zenity"]

  const NotAvailableHead := "Dialog backend \""
  const NotAvailableMiddle := "\" is not available. Available frontends: "

  function NotAvailable(backend: string, available: seq<string>): string
  {
    NotAvailableHead + backend + NotAvailableMiddle + Join(", ", available)
  }

  /** The backend the probes pick, before any override. */
  function Detected(p: Probe): string
  {
    if p.zenityProbe == Succeeded then "zenity"
    else if p.os == Some("Windows_NT") then "win32"
    else if Delete(p.uname, '\n') == "Darwin" then "macos"
    else "xmessage"
  }

  function Chosen(p: Probe): string
  {
    if p.override.Some? then p.override.value else Detected(p)
  }

  function Select(p: Probe): (r: Loaded)
    ensures r.Loaded? ==> r.backend in Available
  {
    var b := Chosen(p);
    if b in Available then Loaded(b) else LoadError(NotAvailable(b, Available))
  }

  /** The load-time code of lib/dialogbind.rb: `$dialogbind_dialog_backend`
      starts as `xmessage` and is reassigned by each probe that succeeds and
      then by the override. */
  method LoadBackend(p: Probe) returns (r: Loaded)
    ensures r == Select(p)
  {
    var backend := "xmessage";
    if p.zenityProbe == Succeeded {
      backend := "zenity";
    } else if p.os.Some? && p.os.value == "Windows_NT" {
      backend := "win32";
    } else if Delete(p.uname, '\n') == "Darwin" {
      backend := "macos";
    }
    if p.override.Some? {
      backend := p.override.value;
    }
    if backend !in Available {
      return LoadError(NotAvailable(backend, Available));
    }
    return Loaded(backend);
  }

  /** The probes in priority order: zenity first, then Windows, then macOS;
      each later one counts only when every earlier one failed, and without
      any the default is xmessage. */
  lemma DetectionPriority(p: Probe)
    ensures Detected(p) in Available
    ensures Detected(p) == "zenity" <==> p.zenityProbe == Succeeded
    ensures Detected(p) == "win32" <==> p.zenityProbe != Succeeded && p.os == Some("Windows_NT")
    ensures Detected(p) == "macos" <==>
      p.zenityProbe != Succeeded && p.os != Some("Windows_NT") && Delete(p.uname, '\n') == "Darwin"
    ensures Detected(p) == "xmessage" <==>
      p.zenityProbe != Succeeded && p.os != Some("Windows_NT") && Delete(p.uname, '\n') != "Darwin"
  {
  }

  /** A set `DIALOGBIND_BACKEND` decides alone: the probes no longer matter. */
  lemma OverrideWins(p: Probe, q: Probe)
    requires p.override.Some? && p.override == q.override
    ensures Select(p) == Select(q)
    ensures Select(p).Loaded? ==> Select(p).backend == p.override.value
  {
  }

  /** Without an override the load always succeeds. */
  lemma NoOverrideLoads(p: Probe)
    requires p.override.None?
    ensures Select(p) == Loaded(Detected(p))
  {
    DetectionPriority(p);
  }

  /** The supported lists as the messages spell them. */
  lemma AvailableList()
    ensures Join(", ", Available) == "xmessage, zenity, macos, win32"
  {
    var a2 := ["macos", "win32"];
    var a1 := ["zenity"] + a2;
    assert a2[1..] == ["win32"];
    assert a1[1..] == a2;
    assert Available[1..] == a1;
  }

  lemma LegacyAvailableList()
    ensures Join(", ", LegacyAvailable) == "xmessage, zenity"
  {
    assert LegacyAvailable[1..] == ["zenity"];
  }

  /** The load fails exactly for a name outside the supported list, with a
      message that names it and lists the supported backends. */
  lemma LoadErrorMessage(p: Probe)
    ensures Select(p).LoadError? <==> Chosen(p) !in Available
    ensures Select(p).LoadError? ==>
      StartsWith(Select(p).message, NotAvailableHead + Chosen(p) + NotAvailableMiddle) &&
      EndsWith(Select(p).message, "xmessage, zenity, macos, win32")
  {
    if Select(p).LoadError? {
      MessageShape(Chosen(p), Available);
      AvailableList();
    }
  }

  lemma MessageShape(backend: string, available: seq<string>)
    ensures var m := NotAvailable(backend, available);
      StartsWith(m, NotAvailableHead + backend + NotAvailableMiddle) && EndsWith(m, Join(", ", available))
  {
    var front := NotAvailableHead + backend + NotAvailableMiddle;
    var tail := Join(", ", available);
    var m := NotAvailable(backend, available);
    assert m[..|front|] == front;
    assert m[|m| - |tail|..] == tail;
  }

  /** A name is one the dialog functions recognise exactly when it is in
      the supported list, and then the load accepts it. */
  lemma BackendNames(name: string)
    ensures BackendOf(name).OtherBackend? <==> name !in Available
    ensures BackendOf(name) == XmessageBackend || BackendOf(name) == ZenityBackend <==> name in LegacyAvailable
  {
  }

  // ---------------------------------------------------------------------
  // The two-backend version (dialogbind.rb).

  function LegacyDetected(p: Probe): string
  {
    if p.zenityProbe == Succeeded then "zenity" else "xmessage"
  }

  function LegacyChosen(p: Probe): string
  {
    if p.override.Some? then p.override.value else LegacyDetected(p)
  }

  function LegacySelect(p: Probe): (r: Loaded)
    ensures r.Loaded? ==> r.backend in LegacyAvailable
  {
    var b := LegacyChosen(p);
    if b in LegacyAvailable then Loaded(b) else LoadError(NotAvailable(b, LegacyAvailable))
  }

  /** The load-time code of dialogbind.rb. */
  method LegacyLoadBackend(p: Probe) returns (r: Loaded)
    ensures r == LegacySelect(p)
  {
    var backend := "xmessage";
    if p.zenityProbe == Succeeded {
      backend := "zenity";
    }
    if p.override.Some? {
      backend := p.override.value;
    }
    if backend !in LegacyAvailable {
      return LoadError(NotAvailable(backend, LegacyAvailable));
    }
    return Loaded(backend);
  }

  /** The older version loads only xmessage or zenity, ignores the Windows
      and macOS probes, and agrees with the newer one whenever the newer one
      picks xmessage or zenity; a `macos` or `win32` override that the newer
      version accepts makes the older one fail. */
  lemma LegacySelection(p: Probe)
    ensures LegacySelect(p).Loaded? ==> LegacySelect(p).backend in LegacyAvailable
    ensures p.override.None? ==> LegacySelect(p) == Loaded(LegacyDetected(p))
    ensures LegacySelect(p).LoadError? <==> LegacyChosen(p) !in LegacyAvailable
    ensures Select(p).Loaded? && Select(p).backend in LegacyAvailable ==> LegacySelect(p) == Select(p)
    ensures p.override == Some("macos") || p.override == Some("win32") ==>
      Select(p).Loaded? && LegacySelect(p) == LoadError(NotAvailable(p.override.value, LegacyAvailable))
  {
    if Select(p).Loaded? && Select(p).backend in LegacyAvailable && p.override.None? {
      DetectionPriority(p);
    }
  }
}
