/** The AppleScript command builder (`macdialog` in lib/dialogbind.rb): a
    text, a list of button labels, a dialog type and an error flag become an
    `osascript` command line, which is stored and, unless this is a dry run,
    handed to `system`. */
module MacDialog {
  import opened Text
  import opened Effects

  /** The characters `macdialog` strips from its text. */
  predicate Stripped(c: char)
  {
    c == '!' || c == '\'' || c == '"' || c == '$'
  }

  /** The text without its `!`, `'`, `"` and `$`, in one pass; the source
      removes them with four `gsub` calls, to which this is equal
      (`SanitizeMacIsGsubs`). */
  function SanitizeMac(text: string): string
  {
    if text == [] then [] else (if Stripped(text[0]) then [] else [text[0]]) + SanitizeMac(text[1..])
  }

  /** `String#inspect` between its quotes: `"` and `\` get a backslash. */
  function Escape(s: string): (r: string)
    ensures |r| >= |s|
  {
    if s == [] then []
    else (if s[0] == '"' || s[0] == '\\' then ['\\', s[0]] else [s[0]]) + Escape(s[1..])
  }

  function Quote(s: string): string
  {
    "\"" + Escape(s) + "\""
  }

  function Quoted(bs: seq<string>): (r: seq<string>)
    ensures |r| == |bs|
    ensures forall i :: 0 <= i < |bs| ==> r[i] == Quote(bs[i])
  {
    if bs == [] then [] else [Quote(bs[0])] + Quoted(bs[1..])
  }

  /** `Array#to_s` of an array of strings. */
  function Inspect(bs: seq<string>): string
  {
    "[" + Join(", ", Quoted(bs)) + "]"
  }

  /** `gsub('[', '{').gsub(']', '}')` over the whole inspected array. */
  function Braces(s: string): string
  {
    Replace(Replace(s, '[', '{'), ']', '}')
  }

  const Display := "osascript -e 'tell app \"System Events\" to display "
  const Caution := " with icon caution"

  /** What follows the quoted text: a buttons clause for every type but
      `notification`, which gets a title clause naming the program. */
  function ClauseText(kind: string, buttons: seq<string>, programName: string): string
  {
    if kind != "notification" then " buttons " + Braces(Inspect(buttons))
    else " with title \"" + programName + "\""
  }

  function IconText(error: bool): string
  {
    if error then Caution else ""
  }

  function MacCommand(text: string, buttons: seq<string>, kind: string, error: bool, programName: string): string
  {
    Display + kind + " \"" + SanitizeMac(text) + "\"" + ClauseText(kind, buttons, programName) + IconText(error) + "'"
  }

  /** What `macdialog` leaves behind: the command it stored in
      `$dialogbind_macos_script_cmd`, the requests it made, its return value. */
  datatype MacResult = MacResult(scriptCmd: string, trace: seq<Invocation>, value: Value)

  /** `macdialog(text, buttons, type, error, dryrun)`: a dry run only stores
      the command and answers `false`; otherwise the command runs with its
      output sent to `/dev/null` and `system`'s answer is returned. */
  function RunMacDialog(w: World, text: string, buttons: seq<string>, kind: string, error: bool, dryrun: bool): (r: MacResult)
    ensures r.scriptCmd == MacCommand(text, buttons, kind, error, w.programName)
    ensures dryrun ==> r.trace == [] && r.value == Bool(false)
    ensures !dryrun ==> r.trace == [Shell(r.scriptCmd + " > /dev/null")] && r.value == SystemValue(w.status)
  {
    var cmd := MacCommand(text, buttons, kind, error, w.programName);
    if !dryrun then MacResult(cmd, [Shell(cmd + " > /dev/null")], SystemValue(w.status))
    else MacResult(cmd, [], Bool(false))
  }

  /** The global `$dialogbind_macos_script_cmd`, empty when the library is
      loaded and overwritten by every call of `macdialog`. */
  class ScriptCommand {
    var cmd: string

    constructor ()
      ensures cmd == ""
    {
      cmd := "";
    }

    /** `macdialog` step by step: the command is built by appending to it,
        stored in the global, and run unless this is a dry run. */
    method MacDialog(w: World, text: string, buttons: seq<string>, kind: string, error: bool, dryrun: bool)
      returns (trace: seq<Invocation>, value: Value)
      modifies this
      ensures cmd == MacCommand(text, buttons, kind, error, w.programName)
      ensures MacResult(cmd, trace, value) == RunMacDialog(w, text, buttons, kind, error, dryrun)
    {
      var textFixed := Delete(Delete(Delete(Delete(text, '!'), '\''), '"'), '$');
      SanitizeMacIsGsubs(text);
      var c := Display + kind + " \"" + textFixed + "\"";
      if kind != "notification" {
        c := c + (" buttons " + Braces(Inspect(buttons)));
      } else {
        c := c + (" with title \"" + w.programName + "\"");
      }
      if error {
        c := c + Caution;
      } else {
        assert c + IconText(error) == c;
      }
      c := c + "'";
      cmd := c;
      if !dryrun {
        return [Shell(c + " > /dev/null")], SystemValue(w.status);
      }
      return [], Bool(false);
    }
  }

  // ---------------------------------------------------------------------
  // The sanitised text.

  /** The sanitised text holds none of `!`, `'`, `"`, `$`, keeps every
      other character in order, and a text without them is left as it is. */
  lemma {:induction false} SanitizeMacClean(text: string)
    ensures forall k :: 0 <= k < |SanitizeMac(text)| ==> !Stripped(SanitizeMac(text)[k])
    ensures |SanitizeMac(text)| <= |text|
    ensures (forall k :: 0 <= k < |text| ==> !Stripped(text[k])) ==> SanitizeMac(text) == text
  {
    if text != [] {
      SanitizeMacClean(text[1..]);
      assert text == [text[0]] + text[1..];
    }
  }

  /** The one pass removes what the four `gsub` calls remove. */
  lemma {:induction false} SanitizeMacIsGsubs(text: string)
    ensures SanitizeMac(text) == Delete(Delete(Delete(Delete(text, '!'), '\''), '"'), '$')
  {
    if text != [] {
      var h := [text[0]];
      var r := text[1..];
      assert text == h + r;
      SanitizeMacIsGsubs(r);
      var h1, r1 := Delete(h, '!'), Delete(r, '!');
      var h2, r2 := Delete(h1, '\''), Delete(r1, '\'');
      var h3, r3 := Delete(h2, '"'), Delete(r2, '"');
      DeleteConcat(h, r, '!');
      DeleteConcat(h1, r1, '\'');
      DeleteConcat(h2, r2, '"');
      DeleteConcat(h3, r3, '$');
      assert h[1..] == [];
      assert Delete(h3, '$') == if Stripped(text[0]) then [] else h;
    }
  }

  // ---------------------------------------------------------------------
  // The buttons clause.

  /** Reads an escaped string back. */
  function Unescape(s: string): Option<string>
  {
    if s == [] then Some([])
    else if s[0] == '\\' then
      if |s| < 2 then None
      else match Unescape(s[2..])
        case None => None
        case Some(t) => Some([s[1]] + t)
    else match Unescape(s[1..])
      case None => None
      case Some(t) => Some([s[0]] + t)
  }

  /** Escaping loses nothing: every label reads back as itself. */
  lemma {:induction false} EscapeRoundTrip(s: string)
    ensures Unescape(Escape(s)) == Some(s)
  {
    if s != [] {
      EscapeRoundTrip(s[1..]);
      var e := Escape(s);
      if s[0] == '"' || s[0] == '\\' {
        assert e == ['\\', s[0]] + Escape(s[1..]);
        assert e[2..] == Escape(s[1..]);
      } else {
        assert e == [s[0]] + Escape(s[1..]);
        assert e[0] != '\\';
        assert e[1..] == Escape(s[1..]);
      }
      assert [s[0]] + s[1..] == s;
    }
  }

  /** A label without `"` and `\` is written as it is. */
  lemma {:induction false} EscapePlain(s: string)
    requires '"' !in s && '\\' !in s
    ensures Escape(s) == s
  {
    if s != [] {
      EscapePlain(s[1..]);
    }
  }

  /** A character other than `\` is in the escaped text only if it is in the
      text. */
  lemma {:induction false} EscapeKeepsOut(s: string, x: char)
    requires x != '\\' && x !in s
    ensures x !in Escape(s)
  {
    if s != [] {
      EscapeKeepsOut(s[1..], x);
    }
  }

  lemma {:induction false} JoinKeepsOut(sep: string, xs: seq<string>, x: char)
    requires x !in sep
    requires forall i :: 0 <= i < |xs| ==> x !in xs[i]
    ensures x !in Join(sep, xs)
  {
    if |xs| > 1 {
      JoinKeepsOut(sep, xs[1..], x);
    }
  }

  /** Brackets turned into braces around a text free of brackets. */
  lemma BracesAround(j: string)
    requires '[' !in j && ']' !in j
    ensures Braces("[" + j + "]") == "{" + j + "}"
  {
    var s := "[" + j + "]";
    var r := Braces(s);
    var target := "{" + j + "}";
    forall k | 0 <= k < |r| ensures r[k] == target[k] {
      if 0 < k < |r| - 1 {
        assert s[k] == j[k - 1];
      }
    }
  }

  /** Each plain label is quoted as it is, and brings in no bracket. */
  lemma QuotedPlain(bs: seq<string>)
    requires forall i :: 0 <= i < |bs| ==> '"' !in bs[i] && '\\' !in bs[i] && '[' !in bs[i] && ']' !in bs[i]
    ensures forall i :: 0 <= i < |bs| ==> Quoted(bs)[i] == "\"" + bs[i] + "\""
    ensures forall i :: 0 <= i < |bs| ==> '[' !in Quoted(bs)[i] && ']' !in Quoted(bs)[i]
  {
    forall i | 0 <= i < |bs|
      ensures Quoted(bs)[i] == "\"" + bs[i] + "\"" && '[' !in Quoted(bs)[i] && ']' !in Quoted(bs)[i]
    {
      EscapePlain(bs[i]);
    }
  }

  /** Labels free of `"`, `\`, `[` and `]` appear as `{"a", "b"}`: each
      label in double quotes, separated by `, `, between braces. */
  lemma PlainButtons(bs: seq<string>)
    requires forall i :: 0 <= i < |bs| ==> '"' !in bs[i] && '\\' !in bs[i] && '[' !in bs[i] && ']' !in bs[i]
    ensures Braces(Inspect(bs)) == "{" + Join(", ", Quoted(bs)) + "}"
    ensures forall i :: 0 <= i < |bs| ==> Quoted(bs)[i] == "\"" + bs[i] + "\""
  {
    QuotedPlain(bs);
    var qs := Quoted(bs);
    JoinKeepsOut(", ", qs, '[');
    JoinKeepsOut(", ", qs, ']');
    BracesAround(Join(", ", qs));
  }

  /** The buttons clause is never empty and ends in `}`. */
  lemma BracesEnd(bs: seq<string>)
    ensures var b := Braces(Inspect(bs)); |b| > 0 && b[|b| - 1] == '}'
  {
    var s := Inspect(bs);
    assert s[|s| - 1] == ']';
  }

  // ---------------------------------------------------------------------
  // The caution icon.

  /** ` with icon caution` closes the command exactly when the error flag
      is set. */
  lemma IconIffError(text: string, buttons: seq<string>, kind: string, error: bool, programName: string)
    ensures EndsWith(MacCommand(text, buttons, kind, error, programName), Caution + "'") <==> error
  {
    var cmd := MacCommand(text, buttons, kind, error, programName);
    var clause := ClauseText(kind, buttons, programName);
    var front := Display + kind + " \"" + SanitizeMac(text) + "\"";
    if error {
      assert cmd == (front + clause) + (Caution + "'");
    } else {
      assert cmd == (front + clause) + "'";
      ClauseEnd(kind, buttons, programName);
      assert cmd[|cmd| - 2] == clause[|clause| - 1];
      assert (Caution + "'")[|Caution + "'"| - 2] == 'n';
    }
  }

  lemma ClauseEnd(kind: string, buttons: seq<string>, programName: string)
    ensures var c := ClauseText(kind, buttons, programName);
      |c| > 0 && (c[|c| - 1] == '}' || c[|c| - 1] == '"')
  {
    if kind != "notification" {
      BracesEnd(buttons);
    }
  }

  // ---------------------------------------------------------------------
  // Reading the command back.

  datatype Clause = ButtonsClause(list: string) | TitleClause(title: string)

  /** The clause each type gets. */
  function ExpectedClause(kind: string, buttons: seq<string>, programName: string): Clause
  {
    if kind != "notification" then ButtonsClause(Braces(Inspect(buttons))) else TitleClause(programName)
  }

  function ParseClause(c: string): Option<Clause>
  {
    if " buttons " <= c then Some(ButtonsClause(c[9..]))
    else if " with title \"" <= c && |c| >= 14 && c[|c| - 1] == '"' then Some(TitleClause(c[13..|c| - 1]))
    else None
  }

  /** What follows the text's closing quote: the clause, then the caution
      icon when present, then the closing `'`. */
  function ParseEnd(after: string): Option<(Clause, bool)>
  {
    if after == [] || after[|after| - 1] != '\'' then None
    else
      var body := after[..|after| - 1];
      var error := EndsWith(body, Caution);
      match ParseClause(if error then body[..|body| - |Caution|] else body)
      case None => None
      case Some(c) => Some((c, error))
  }

  /** Splits a command for a dialog of type `kind` into the text it shows,
      its clause and its error flag. */
  function ParseMac(cmd: string, kind: string): Option<(string, Clause, bool)>
  {
    var head := Display + kind + " \"";
    if !(head <= cmd) then None
    else
      var rest := cmd[|head|..];
      match IndexOf(rest, '"')
      case None => None
      case Some(j) =>
        match ParseEnd(rest[j + 1..])
        case None => None
        case Some(e) => Some((rest[..j], e.0, e.1))
  }

  lemma ParseClauseRoundTrip(kind: string, buttons: seq<string>, programName: string)
    ensures ParseClause(ClauseText(kind, buttons, programName)) == Some(ExpectedClause(kind, buttons, programName))
  {
    var c := ClauseText(kind, buttons, programName);
    if kind != "notification" {
      assert " buttons " <= c;
      assert c[9..] == Braces(Inspect(buttons));
    } else {
      assert c[1] == 'w';
      assert c[13..|c| - 1] == programName;
    }
  }

  lemma ParseEndRoundTrip(kind: string, buttons: seq<string>, programName: string, error: bool)
    ensures ParseEnd(ClauseText(kind, buttons, programName) + IconText(error) + "'") ==
      Some((ExpectedClause(kind, buttons, programName), error))
  {
    var clause := ClauseText(kind, buttons, programName);
    var after := clause + IconText(error) + "'";
    assert after[..|after| - 1] == clause + IconText(error);
    var body := clause + IconText(error);
    if error {
      assert EndsWith(body, Caution);
      assert body[..|body| - |Caution|] == clause;
    } else {
      ClauseEnd(kind, buttons, programName);
      assert body == clause;
      assert !EndsWith(body, Caution) by {
        if |Caution| <= |body| {
          assert body[|body| - 1] != Caution[|Caution| - 1];
        }
      }
    }
    ParseClauseRoundTrip(kind, buttons, programName);
  }

  lemma ParseAfterHead(kind: string, s: string, after: string)
    requires '"' !in s
    ensures ParseMac((Display + kind + " \"") + (s + ['"'] + after), kind) ==
      match ParseEnd(after)
      case None => None
      case Some(e) => Some((s, e.0, e.1))
  {
    var head := Display + kind + " \"";
    var rest := s + ['"'] + after;
    var cmd := head + rest;
    assert head <= cmd;
    assert cmd[|head|..] == rest;
    IndexOfAfter(s, '"', after);
    assert rest[|s| + 1..] == after;
    assert rest[..|s|] == s;
  }

  lemma MacCommandShape(text: string, buttons: seq<string>, kind: string, error: bool, programName: string)
    ensures var head := Display + kind + " \"";
      var after := ClauseText(kind, buttons, programName) + IconText(error) + "'";
      MacCommand(text, buttons, kind, error, programName) == head + (SanitizeMac(text) + ['"'] + after)
  {
    var head := Display + kind + " \"";
    var s := SanitizeMac(text);
    var c := ClauseText(kind, buttons, programName);
    var icon := IconText(error);
    var after := c + icon + "'";
    var x2 := head + s + "\"";
    ConcatAssoc(x2, c, icon);
    ConcatAssoc(x2, c + icon, "'");
    ConcatAssoc(head + s, "\"", after);
    ConcatAssoc(head, s, "\"" + after);
    ConcatAssoc(s, ['"'], after);
  }

  /** The command reads back as the sanitised text, the clause its type
      calls for (buttons for every type but `notification`, the program's
      title for that one) and the error flag. */
  lemma MacCommandRoundTrip(text: string, buttons: seq<string>, kind: string, error: bool, programName: string)
    ensures ParseMac(MacCommand(text, buttons, kind, error, programName), kind) ==
      Some((SanitizeMac(text), ExpectedClause(kind, buttons, programName), error))
  {
    var head := Display + kind + " \"";
    var s := SanitizeMac(text);
    var after := ClauseText(kind, buttons, programName) + IconText(error) + "'";
    SanitizeMacClean(text);
    MacCommandShape(text, buttons, kind, error, programName);
    ParseAfterHead(kind, s, after);
    ParseEndRoundTrip(kind, buttons, programName, error);
  }
}
