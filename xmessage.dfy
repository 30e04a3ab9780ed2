/** The xmessage command builder (`xmessage` in lib/dialogbind.rb and,
    identically, in dialogbind.rb): a body text, an insertion-ordered hash of
    button labels to exit codes and a file flag become the command line handed
    to `system`. */
module Xmessage {
  import opened Text

  /** The buttons hash: label => exit code, in insertion order. */
  type Buttons = seq<(string, int)>

  const Head := "xmessage -center -buttons \""

  /** One button: the label without its `"`, a colon, the code. */
  function ButtonItem(b: (string, int)): string
  {
    Delete(b.0, '"') + ":" + IntToString(b.1)
  }

  /** The button list as the loop builds it: a comma before every button but
      the first. */
  function ButtonList(bs: Buttons): string
  {
    if bs == [] then ""
    else if |bs| == 1 then ButtonItem(bs[0])
    else ButtonList(bs[..|bs| - 1]) + ("," + ButtonItem(bs[|bs| - 1]))
  }

  /** The body as it is put on the command line: every `"` turned into `'`,
      then every `!` removed. */
  function Sanitize(body: string): string
  {
    Delete(Replace(body, '"', '\''), '!')
  }

  function FileFlag(file: bool): string
  {
    if file then "-file " else ""
  }

  function Command(body: string, bs: Buttons, file: bool): string
  {
    ((Head + ButtonList(bs)) + "\" ") + FileFlag(file) + ("\"" + Sanitize(body) + "\"")
  }

  /** `xmessage(arg, buttons, file)` up to the call of `system`: the loop over
      the buttons with its `first` flag, appending to `build_cmd`. */
  method BuildCommand(body: string, buttons: Buttons, file: bool) returns (buildCmd: string)
    ensures buildCmd == Command(body, buttons, file)
    ensures StartsWith(buildCmd, Head)
  {
    buildCmd := Head;
    var first := true;
    var i := 0;
    while i < |buttons|
      invariant 0 <= i <= |buttons|
      invariant first <==> i == 0
      invariant buildCmd == Head + ButtonList(buttons[..i])
    {
      var button := buttons[i];
      ghost var prev := buildCmd;
      assert buttons[..i + 1][..i] == buttons[..i];
      if first {
        first := false;
        buildCmd := buildCmd + (Delete(button.0, '"') + ":" + IntToString(button.1));
        assert buttons[..i + 1] == [button];
      } else {
        buildCmd := buildCmd + ",";
        buildCmd := buildCmd + (Delete(button.0, '"') + ":" + IntToString(button.1));
        ConcatAssoc(prev, ",", ButtonItem(button));
        ConcatAssoc(Head, ButtonList(buttons[..i]), "," + ButtonItem(button));
      }
      i := i + 1;
    }
    assert buttons[..i] == buttons;
    buildCmd := buildCmd + "\" ";
    if file {
      buildCmd := buildCmd + "-file ";
    }
    buildCmd := buildCmd + ("\"" + Delete(Replace(body, '"', '\''), '!') + "\"");
    PrefixOfExtension(Head, Head + ButtonList(buttons), "\" " + FileFlag(file) + ("\"" + Sanitize(body) + "\""));
  }

  // ---------------------------------------------------------------------
  // The button list.

  function Items(bs: Buttons): (r: seq<string>)
    ensures |r| == |bs|
    ensures forall i :: 0 <= i < |bs| ==> r[i] == ButtonItem(bs[i])
  {
    if bs == [] then [] else Items(bs[..|bs| - 1]) + [ButtonItem(bs[|bs| - 1])]
  }

  /** The `first`-flag loop writes the items joined by commas, as
      `Array#join(',')` would. */
  lemma {:induction false} ButtonListIsJoin(bs: Buttons)
    ensures ButtonList(bs) == Join(",", Items(bs))
  {
    if |bs| > 1 {
      var init := bs[..|bs| - 1];
      ButtonListIsJoin(init);
      JoinSnoc(",", Items(init), ButtonItem(bs[|bs| - 1]));
      ConcatAssoc(Join(",", Items(init)), ",", ButtonItem(bs[|bs| - 1]));
    }
  }

  /** The commas the labels themselves carry, after `"` is deleted. */
  function LabelCommas(bs: Buttons): nat
  {
    if bs == [] then 0 else LabelCommas(bs[..|bs| - 1]) + Count(Delete(bs[|bs| - 1].0, '"'), ',')
  }

  lemma ItemCommas(b: (string, int))
    ensures Count(ButtonItem(b), ',') == Count(Delete(b.0, '"'), ',')
  {
    var name := Delete(b.0, '"');
    var code := IntToString(b.1);
    CountConcat(name + ":", code, ',');
    CountConcat(name, ":", ',');
    assert ',' !in code by {
      forall k | 0 <= k < |code| ensures code[k] != ',' {
        assert IsDigit(code[k]) || code[k] == '-';
      }
    }
  }

  /** `n` buttons are separated by exactly `n - 1` commas; any other comma
      comes from a label. */
  lemma {:induction false} ButtonListCommas(bs: Buttons)
    ensures Count(ButtonList(bs), ',') == (if bs == [] then 0 else |bs| - 1) + LabelCommas(bs)
  {
    if |bs| == 1 {
      ItemCommas(bs[0]);
      assert bs[..0] == [];
    } else if |bs| > 1 {
      var init := bs[..|bs| - 1];
      var last := bs[|bs| - 1];
      ButtonListCommas(init);
      ItemCommas(last);
      CountConcat(ButtonList(init), "," + ButtonItem(last), ',');
      CountConcat(",", ButtonItem(last), ',');
    }
  }

  /** With labels free of commas the commas are exactly the separators. */
  lemma {:induction false} NoLabelCommas(bs: Buttons)
    requires forall i :: 0 <= i < |bs| ==> ',' !in bs[i].0
    ensures LabelCommas(bs) == 0
  {
    if bs != [] {
      NoLabelCommas(bs[..|bs| - 1]);
      var name := bs[|bs| - 1].0;
      assert ',' !in name;
      assert ',' !in Delete(name, '"') by {
        if ',' in Delete(name, '"') { DeleteSubset(name, '"', ','); }
      }
    }
  }

  /** Deleting a character adds no other character. */
  lemma {:induction false} DeleteSubset(s: string, c: char, x: char)
    requires x in Delete(s, c)
    ensures x in s
  {
    if s != [] {
      if s[0] == x {
      } else {
        assert Delete(s, c) == (if s[0] == c then [] else [s[0]]) + Delete(s[1..], c);
        DeleteSubset(s[1..], c, x);
      }
    }
  }

  /** An empty buttons hash gives `-buttons ""`. */
  lemma EmptyButtons(body: string, file: bool)
    ensures StartsWith(Command(body, [], file), Head + "\" ")
  {
    PrefixOfExtension(Head + "\" ", Head + "\" ", FileFlag(file) + ("\"" + Sanitize(body) + "\""));
  }

  lemma {:induction false} ButtonListHasNoQuote(bs: Buttons)
    ensures '"' !in ButtonList(bs)
  {
    if bs != [] {
      var item := ButtonItem(bs[|bs| - 1]);
      var code := IntToString(bs[|bs| - 1].1);
      assert '"' !in code by {
        forall k | 0 <= k < |code| ensures code[k] != '"' {
          assert IsDigit(code[k]) || code[k] == '-';
        }
      }
      assert '"' !in item;
      if |bs| > 1 {
        ButtonListHasNoQuote(bs[..|bs| - 1]);
      }
    }
  }

  // ---------------------------------------------------------------------
  // The body.

  /** The body holds neither `"` nor `!`, is never longer than the text it
      came from, and sanitising it again changes nothing. */
  lemma SanitizeClean(body: string)
    ensures '"' !in Sanitize(body) && '!' !in Sanitize(body)
    ensures |Sanitize(body)| <= |body|
    ensures Sanitize(Sanitize(body)) == Sanitize(body)
  {
    var t := Replace(body, '"', '\'');
    ReplaceRemovesAll(body, '"', '\'');
    assert '"' !in Sanitize(body) by {
      if '"' in Sanitize(body) { DeleteSubset(t, '!', '"'); }
    }
    ReplaceAbsent(Sanitize(body), '"', '\'');
    DeleteAbsent(Sanitize(body), '!');
  }

  // ---------------------------------------------------------------------
  // Reading the command back.

  /** What follows the button list's closing `" `: the optional `-file `
      and the double-quoted body. */
  function ParseTail(tail: string): Option<(bool, string)>
  {
    var file := "-file " <= tail;
    var quoted := if file then tail[6..] else tail;
    if |quoted| < 2 || quoted[0] != '"' || quoted[|quoted| - 1] != '"' then None
    else Some((file, quoted[1..|quoted| - 1]))
  }

  /** Splits a command into its button list, its file flag and its body. */
  function ParseCommand(cmd: string): Option<(string, bool, string)>
  {
    if !(Head <= cmd) then None
    else
      var rest := cmd[|Head|..];
      match IndexOf(rest, '"')
      case None => None
      case Some(j) =>
        var after := rest[j + 1..];
        if after == [] || after[0] != ' ' then None
        else match ParseTail(after[1..])
          case None => None
          case Some(t) => Some((rest[..j], t.0, t.1))
  }

  lemma ParseTailRoundTrip(file: bool, text: string)
    ensures ParseTail(FileFlag(file) + ("\"" + text + "\"")) == Some((file, text))
  {
    var quoted := "\"" + text + "\"";
    var tail := FileFlag(file) + quoted;
    if file {
      assert "-file " <= tail;
      assert tail[6..] == quoted;
    } else {
      assert tail == quoted;
      assert tail[0] == '"';
    }
    assert quoted[1..|quoted| - 1] == text;
  }

  /** A command made of a quote-free button list and a tail reads back as
      that list and whatever the tail reads back as. */
  lemma ParseAfterList(list: string, tail: string)
    requires '"' !in list
    ensures ParseCommand(Head + (list + ['"'] + (" " + tail))) ==
      match ParseTail(tail)
      case None => None
      case Some(t) => Some((list, t.0, t.1))
  {
    var rest := list + ['"'] + (" " + tail);
    var cmd := Head + rest;
    assert Head <= cmd;
    assert cmd[|Head|..] == rest;
    IndexOfAfter(list, '"', " " + tail);
    assert rest[|list| + 1..] == " " + tail;
    assert (" " + tail)[1..] == tail;
    assert rest[..|list|] == list;
  }

  /** The command reads back as the button list, then `-file ` exactly when
      the file flag is set, then the sanitised body as the final
      double-quoted segment. */
  lemma CommandRoundTrip(body: string, bs: Buttons, file: bool)
    ensures ParseCommand(Command(body, bs, file)) == Some((ButtonList(bs), file, Sanitize(body)))
  {
    var list := ButtonList(bs);
    var tail := FileFlag(file) + ("\"" + Sanitize(body) + "\"");
    ConcatAssoc((Head + list) + "\" ", FileFlag(file), "\"" + Sanitize(body) + "\"");
    ConcatAssoc(Head + list, "\" ", tail);
    ConcatAssoc(Head, list, "\" " + tail);
    assert "\" " + tail == ['"'] + (" " + tail);
    ConcatAssoc(list, ['"'], " " + tail);
    assert Command(body, bs, file) == Head + (list + ['"'] + (" " + tail));
    ButtonListHasNoQuote(bs);
    ParseAfterList(list, tail);
    ParseTailRoundTrip(file, Sanitize(body));
  }
}
