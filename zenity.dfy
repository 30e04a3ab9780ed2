/** The Zenity argument encoder (`zenity` in lib/dialogbind.rb and, byte for
    byte the same, in dialogbind.rb): an insertion-ordered hash of flag names
    to values becomes the command line handed to `system`. */
module Zenity {
  import opened Text
  import opened OrderedHash

  /** A value `to_s` turns into text: a Ruby String or Integer. */
  datatype Scalar = Str(s: string) | Num(n: int)

  /** A value of the argument hash: `nil` (a bare flag), one scalar, or an
      array of scalars and `nil`s. */
  datatype Val = Bare | One(x: Scalar) | Many(items: seq<Option<Scalar>>)

  type ArgMap = seq<(string, Val)>

  function ToS(x: Scalar): string
  {
    match x
    case Str(s) => s
    case Num(n) => IntToString(n)
  }

  /** A key ending in `%` loses its FIRST `%` (Ruby's `key.sub('%', '')`);
      every other key is used as it is. */
  function EffectiveKey(key: string): (k: string)
    ensures |key| > 0 && key[|key| - 1] == '%' ==> |k| == |key| - 1
    ensures !(|key| > 0 && key[|key| - 1] == '%') ==> k == key
  {
    if |key| > 0 && key[|key| - 1] == '%' then RemoveFirst(key, '%') else key
  }

  /** The `%` that goes is the first one, wherever it lies: everything
      before it and everything after it is kept. */
  lemma EffectiveKeyDropsFirstPercent(key: string)
    requires |key| > 0 && key[|key| - 1] == '%'
    ensures exists i ::
      && 0 <= i < |key| && key[i] == '%' && '%' !in key[..i]
      && EffectiveKey(key) == key[..i] + key[i + 1..]
  {
    RemoveFirstSplits(key, '%');
  }

  /** One array element on the command line. */
  function Token(x: Scalar): string
  {
    "'" + Delete(ToS(x), '\'') + "' "
  }

  function ItemText(item: Option<Scalar>): string
  {
    match item
    case None => ""
    case Some(x) => Token(x)
  }

  /** The tokens of an array value, element by element. */
  function ArrayTokens(items: seq<Option<Scalar>>): string
  {
    if items == [] then "" else ItemText(items[0]) + ArrayTokens(items[1..])
  }

  /** The texts an array value contributes: its non-nil elements, in order,
      each without its single quotes. */
  function Texts(items: seq<Option<Scalar>>): seq<string>
  {
    if items == [] then [] else ItemTexts(items[0]) + Texts(items[1..])
  }

  function ItemTexts(item: Option<Scalar>): seq<string>
  {
    match item
    case None => []
    case Some(x) => [Delete(ToS(x), '\'')]
  }

  /** The texts of a four-element array, element by element. */
  lemma TextsOfFour(a: Option<Scalar>, b: Option<Scalar>, c: Option<Scalar>, d: Option<Scalar>)
    ensures Texts([a, b, c, d]) == ItemTexts(a) + (ItemTexts(b) + (ItemTexts(c) + ItemTexts(d)))
  {
    var s := [a, b, c, d];
    assert s[1..] == [b, c, d];
    assert s[1..][1..] == [c, d];
    assert s[1..][1..][1..] == [d];
    assert s[1..][1..][1..][1..] == [];
    assert Texts([d]) == ItemTexts(d) + Texts([]);
    assert Texts([c, d]) == ItemTexts(c) + Texts([d]);
    assert Texts([b, c, d]) == ItemTexts(b) + Texts([c, d]);
  }

  function ScalarFlag(key: string, x: Scalar): string
  {
    "--" + key + "='" + Replace(ToS(x), '\'', '"') + "'"
  }

  /** How one looked-up value is written: absent or `nil` as a bare flag, a
      scalar as a value flag, an array as its tokens without any flag name. */
  function Render(key: string, v: Option<Val>): string
  {
    match v
    case None => "--" + key
    case Some(Bare) => "--" + key
    case Some(One(x)) => ScalarFlag(key, x)
    case Some(Many(items)) => ArrayTokens(items)
  }

  /** The text written for one key of the hash: the value is looked up under
      the effective key, not under the key as given. */
  function Segment(arg: ArgMap, key: string): string
  {
    var k := EffectiveKey(key);
    Render(k, Lookup(arg, k))
  }

  /** The text of every key, in the hash's insertion order. */
  function Segments(arg: ArgMap): seq<string>
  {
    seq(|arg|, i requires 0 <= i < |arg| => Segment(arg, arg[i].0))
  }

  /** Pieces of text, each followed by one space. */
  function Spaced(segs: seq<string>): string
  {
    if segs == [] then "" else Spaced(segs[..|segs| - 1]) + segs[|segs| - 1] + " "
  }

  function Arguments(arg: ArgMap): string
  {
    Spaced(Segments(arg))
  }

  function Command(arg: ArgMap): string
  {
    "zenity " + Arguments(arg)
  }

  /** `zenity(arg)` up to the call of `system`: the loop over the keys,
      appending to `args_total`. */
  method BuildCommand(arg: ArgMap) returns (cmd: string)
    ensures cmd == Command(arg)
    ensures StartsWith(cmd, "zenity ")
  {
    var argsTotal := "";
    var i := 0;
    while i < |arg|
      invariant 0 <= i <= |arg|
      invariant argsTotal == Spaced(Segments(arg)[..i])
    {
      argsTotal := AppendSegment(argsTotal, arg, arg[i].0);
      argsTotal := argsTotal + " ";
      SpacedStep(Segments(arg), i);
      i := i + 1;
    }
    assert Segments(arg)[..i] == Segments(arg);
    cmd := "zenity " + argsTotal;
  }

  /** One pass of the key loop, without the trailing space: the key loses
      its `%`, its value is looked up, and the value is written. */
  method AppendSegment(before: string, arg: ArgMap, key0: string) returns (argsTotal: string)
    ensures argsTotal == before + Segment(arg, key0)
  {
    var key := key0;
    if |key| > 0 && key[|key| - 1] == '%' {
      key := RemoveFirst(key, '%');
    }
    assert key == EffectiveKey(key0);
    var v := Lookup(arg, key);
    if v.None? || v.value.Bare? {
      argsTotal := before + ("--" + key);
    } else if v.value.Many? {
      argsTotal := AppendTokens(before, v.value.items);
    } else {
      argsTotal := before + ("--" + key + "='" + Replace(ToS(v.value.x), '\'', '"') + "'");
    }
  }

  lemma SpacedStep(segs: seq<string>, i: nat)
    requires i < |segs|
    ensures Spaced(segs[..i + 1]) == Spaced(segs[..i]) + segs[i] + " "
  {
    assert segs[..i + 1][..i] == segs[..i];
  }

  /** The inner loop of `zenity` over an array value: every non-nil element
      is appended as its token, in order. */
  method AppendTokens(before: string, items: seq<Option<Scalar>>) returns (argsTotal: string)
    ensures argsTotal == before + ArrayTokens(items)
  {
    argsTotal := before;
    var j := 0;
    while j < |items|
      invariant 0 <= j <= |items|
      invariant argsTotal + ArrayTokens(items[j..]) == before + ArrayTokens(items)
    {
      ghost var prev := argsTotal;
      assert items[j..][1..] == items[j + 1..];
      assert ArrayTokens(items[j..]) == ItemText(items[j]) + ArrayTokens(items[j + 1..]);
      if items[j].Some? {
        argsTotal := argsTotal + ("'" + Delete(ToS(items[j].value), '\'') + "' ");
      }
      assert argsTotal == prev + ItemText(items[j]);
      ConcatAssoc(prev, ItemText(items[j]), ArrayTokens(items[j + 1..]));
      j := j + 1;
    }
    assert items[j..] == [];
  }

  // ---------------------------------------------------------------------
  // Reading the array tokens back.

  /** Reads a run of tokens `'text' ` (text free of `'`) back into the texts. */
  function ParseTokens(s: string): Option<seq<string>>
    decreases |s|
  {
    if s == [] then Some([])
    else if s[0] != '\'' then None
    else match IndexOf(s[1..], '\'')
      case None => None
      case Some(j) =>
        var rest := s[j + 2..];
        if rest == [] || rest[0] != ' ' then None
        else match ParseTokens(rest[1..])
          case None => None
          case Some(ts) => Some([s[1..j + 1]] + ts)
  }

  /** Array encoding keeps the order of the elements, skips every `nil`, and
      strips every `'`, so each element comes out as a separate single-quoted
      token that reads back as exactly that element's text. */
  lemma {:induction false} ArrayTokensRoundTrip(items: seq<Option<Scalar>>)
    ensures ParseTokens(ArrayTokens(items)) == Some(Texts(items))
  {
    if items != [] {
      var tail := ArrayTokens(items[1..]);
      ArrayTokensRoundTrip(items[1..]);
      assert ArrayTokens(items) == ItemText(items[0]) + tail;
      match items[0]
      case None =>
        assert ArrayTokens(items) == tail;
        assert Texts(items) == Texts(items[1..]);
      case Some(x) =>
        var d := Delete(ToS(x), '\'');
        ParseOneToken(d, tail);
        assert Texts(items) == [d] + Texts(items[1..]);
    }
  }

  /** One token in front of the rest reads back as its text in front of
      the rest's texts. */
  lemma ParseOneToken(d: string, tail: string)
    requires '\'' !in d
    ensures ParseTokens(("'" + d + "' ") + tail) ==
      match ParseTokens(tail)
      case None => None
      case Some(ts) => Some([d] + ts)
  {
    var s := ("'" + d + "' ") + tail;
    var after := " " + tail;
    assert s[0] == '\'';
    assert s[1..] == d + ['\''] + after;
    IndexOfAfter(d, '\'', after);
    assert s[|d| + 2..] == after;
    assert s[1..|d| + 1] == d;
    assert after[1..] == tail;
  }

  /** No token text holds a `'`, so none can end its quoting early. */
  lemma {:induction false} TextsHaveNoQuote(items: seq<Option<Scalar>>)
    ensures forall t :: t in Texts(items) ==> '\'' !in t
  {
    if items != [] {
      TextsHaveNoQuote(items[1..]);
    }
  }

  /** A scalar keeps its length; every `'` in it becomes `"`, so the value
      holds no `'` and the flag is `--key='…'` with exactly that text. */
  lemma ScalarQuoting(key: string, x: Scalar)
    ensures var q := Replace(ToS(x), '\'', '"');
      && ScalarFlag(key, x) == "--" + key + "='" + q + "'"
      && |q| == |ToS(x)|
      && '\'' !in q
      && forall i :: 0 <= i < |q| && ToS(x)[i] != '\'' ==> q[i] == ToS(x)[i]
  {
    ReplaceRemovesAll(ToS(x), '\'', '"');
  }

  // ---------------------------------------------------------------------
  // The segments of the command line.

  lemma {:induction false} SpacedPrefix(segs: seq<string>, m: nat)
    requires m <= |segs|
    ensures Spaced(segs[..m]) <= Spaced(segs)
    decreases |segs|
  {
    if m < |segs| {
      var init := segs[..|segs| - 1];
      assert init[..m] == segs[..m];
      SpacedPrefix(init, m);
      PrefixOfExtension(Spaced(segs[..m]), Spaced(init), segs[|segs| - 1] + " ");
      ConcatAssoc(Spaced(init), segs[|segs| - 1], " ");
    } else {
      assert segs[..m] == segs;
    }
  }

  /** The command is `zenity ` followed by one segment per key, in the
      hash's insertion order, each followed by one space: the segment of
      key `i` comes right after the segments of the keys before it. */
  lemma SegmentsInOrder(arg: ArgMap, i: nat)
    requires i < |arg|
    ensures |Segments(arg)| == |arg|
    ensures "zenity " + (Spaced(Segments(arg)[..i]) + Segment(arg, arg[i].0) + " ") <= Command(arg)
  {
    var segs := Segments(arg);
    SpacedPrefix(segs, i + 1);
    assert segs[..i + 1][..i] == segs[..i];
    PrefixConcat("zenity ", Spaced(segs[..i + 1]), Arguments(arg));
  }

  /** A key that does not end in `%` is written from its own value. */
  lemma PlainKeySegment(arg: ArgMap, i: nat)
    requires IsHash(arg) && i < |arg|
    requires var key := arg[i].0; !(|key| > 0 && key[|key| - 1] == '%')
    ensures var key := arg[i].0;
      Segment(arg, key) == match arg[i].1
        case Bare => "--" + key
        case One(x) => ScalarFlag(key, x)
        case Many(items) => ArrayTokens(items)
  {
  }

  /** A key ending in `%` is written from the value of the key without its
      first `%`: like that key when the shortened key is plain, and as the
      bare flag `--` + shortened key when the hash has no such key. The value
      stored under the `%` key itself is never read. */
  lemma PercentKeySegment(arg: ArgMap, key: string)
    requires |key| > 0 && key[|key| - 1] == '%'
    ensures var k := EffectiveKey(key);
      && |k| == |key| - 1
      && Segment(arg, key) == Render(k, Lookup(arg, k))
      && (!(|k| > 0 && k[|k| - 1] == '%') ==> Segment(arg, key) == Segment(arg, k))
      && (Lookup(arg, k).None? ==> Segment(arg, key) == "--" + k)
  {
  }

  /** The same for a `%` key whose value sits in the hash: the entry
      `'k%' => w` is written exactly like the entry for `k`. */
  lemma PercentKeyRepeatsPlainKey(arg: ArgMap, i: nat, j: nat)
    requires IsHash(arg) && i < |arg| && j < |arg|
    requires arg[j].0 == arg[i].0 + "%" && '%' !in arg[i].0
    ensures Segment(arg, arg[j].0) == Segment(arg, arg[i].0)
  {
    var k := arg[i].0;
    var key := arg[j].0;
    assert key[|key| - 1] == '%';
    assert IndexOf(key, '%') == Some(|k|) by {
      IndexOfAfter(k, '%', "");
      assert key == k + ['%'] + "";
    }
    assert EffectiveKey(key) == k by {
      assert key[..|k|] == k;
    }
  }
}
