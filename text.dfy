/** Character-level string operations that stand for the handful of Ruby
    `String` methods the library relies on: `gsub` with a one-character
    pattern, `sub`, `include?`, `downcase`, `split`, `Array#join` and
    `Integer#to_s`. */
module Text {

  datatype Option<T> = None | Some(value: T)

  predicate IsDigit(c: char) { '0' <= c <= '9' }

  /** `s.gsub(c, '')`: every occurrence of `c` removed, the rest kept in order. */
  function Delete(s: string, c: char): (r: string)
    ensures c !in r
    ensures |r| <= |s|
  {
    if s == [] then [] else (if s[0] == c then [] else [s[0]]) + Delete(s[1..], c)
  }

  lemma {:induction false} DeleteAbsent(s: string, c: char)
    requires c !in s
    ensures Delete(s, c) == s
  {
    if s != [] {
      assert s[0] != c;
      DeleteAbsent(s[1..], c);
    }
  }

  lemma {:induction false} DeleteConcat(a: string, b: string, c: char)
    ensures Delete(a + b, c) == Delete(a, c) + Delete(b, c)
  {
    if a == [] {
      assert a + b == b;
    } else {
      var ab := a + b;
      var h := if a[0] == c then [] else [a[0]];
      assert ab[0] == a[0];
      assert ab[1..] == a[1..] + b;
      assert Delete(ab, c) == h + Delete(a[1..] + b, c);
      DeleteConcat(a[1..], b, c);
      assert Delete(a, c) == h + Delete(a[1..], c);
      assert h + (Delete(a[1..], c) + Delete(b, c)) == (h + Delete(a[1..], c)) + Delete(b, c);
    }
  }

  /** `s.gsub(a, b)` for one-character `a` and `b`: position by position. */
  function Replace(s: string, a: char, b: char): (r: string)
    ensures |r| == |s|
    ensures forall i :: 0 <= i < |s| ==> r[i] == (if s[i] == a then b else s[i])
  {
    if s == [] then [] else [if s[0] == a then b else s[0]] + Replace(s[1..], a, b)
  }

  lemma ReplaceRemovesAll(s: string, a: char, b: char)
    requires a != b
    ensures a !in Replace(s, a, b)
  {
    var r := Replace(s, a, b);
    forall i | 0 <= i < |r| ensures r[i] != a {
      assert r[i] == (if s[i] == a then b else s[i]);
    }
  }

  lemma ReplaceAbsent(s: string, a: char, b: char)
    requires a !in s
    ensures Replace(s, a, b) == s
  {
  }

  /** Index of the first `c` in `s`, if any. */
  function IndexOf(s: string, c: char): (r: Option<nat>)
    ensures r.None? <==> c !in s
    ensures r.Some? ==> r.value < |s| && s[r.value] == c && c !in s[..r.value]
  {
    if s == [] then None
    else if s[0] == c then Some(0)
    else match IndexOf(s[1..], c)
      case None => None
      case Some(i) =>
        assert s[..i + 1] == [s[0]] + s[1..][..i];
        Some(i + 1)
  }

  lemma {:induction false} IndexOfAfter(a: string, c: char, b: string)
    requires c !in a
    ensures IndexOf(a + [c] + b, c) == Some(|a|)
  {
    if a == [] {
      assert a + [c] + b == [c] + b;
    } else {
      assert a[0] != c;
      assert (a + [c] + b)[0] == a[0];
      assert (a + [c] + b)[1..] == a[1..] + [c] + b;
      IndexOfAfter(a[1..], c, b);
    }
  }

  /** `s.sub(c, '')`: the first `c` removed, nothing else changed. */
  function RemoveFirst(s: string, c: char): (r: string)
    ensures c !in s ==> r == s
    ensures c in s ==> |r| + 1 == |s|
  {
    match IndexOf(s, c)
    case None => s
    case Some(i) => s[..i] + s[i + 1..]
  }

  /** What `sub` leaves: everything before the first `c`, then everything
      after it. */
  lemma RemoveFirstSplits(s: string, c: char)
    requires c in s
    ensures exists i :: 0 <= i < |s| && s[i] == c && c !in s[..i] && RemoveFirst(s, c) == s[..i] + s[i + 1..]
  {
    var i := IndexOf(s, c).value;
    assert s[i] == c && c !in s[..i];
  }

  predicate StartsWith(s: string, p: string) { p <= s }

  lemma ConcatAssoc<T>(a: seq<T>, b: seq<T>, c: seq<T>)
    ensures (a + b) + c == a + (b + c)
  {
  }

  lemma PrefixOfExtension<T>(a: seq<T>, b: seq<T>, c: seq<T>)
    requires a <= b
    ensures a <= b + c
  {
    assert (b + c)[..|a|] == b[..|a|];
  }

  lemma PrefixConcat(c: string, a: string, b: string)
    requires a <= b
    ensures c + a <= c + b
  {
    assert (c + b)[..|c + a|] == c + b[..|a|];
  }

  predicate EndsWith(s: string, p: string) { |p| <= |s| && s[|s| - |p|..] == p }

  /** Number of occurrences of `c` in `s`. */
  function Count(s: string, c: char): (n: nat)
    ensures n <= |s|
    ensures n == 0 <==> c !in s
  {
    if s == [] then 0 else (if s[0] == c then 1 else 0) + Count(s[1..], c)
  }

  lemma {:induction false} CountConcat(a: string, b: string, c: char)
    ensures Count(a + b, c) == Count(a, c) + Count(b, c)
  {
    if a == [] {
      assert a + b == b;
    } else {
      assert (a + b)[0] == a[0];
      assert (a + b)[1..] == a[1..] + b;
      CountConcat(a[1..], b, c);
    }
  }

  /** `xs.join(sep)`. */
  function Join(sep: string, xs: seq<string>): string
  {
    if xs == [] then "" else if |xs| == 1 then xs[0] else xs[0] + sep + Join(sep, xs[1..])
  }

  /** Appending one more element to a non-empty list adds one separator. */
  lemma {:induction false} JoinSnoc(sep: string, xs: seq<string>, x: string)
    requires xs != []
    ensures Join(sep, xs + [x]) == Join(sep, xs) + sep + x
    decreases |xs|
  {
    if |xs| == 1 {
      assert xs + [x] == [xs[0], x];
      assert [xs[0], x][1..] == [x];
    } else {
      assert (xs + [x])[1..] == xs[1..] + [x];
      JoinSnoc(sep, xs[1..], x);
      ConcatAssoc(xs[0] + sep, Join(sep, xs[1..]), sep + x);
      ConcatAssoc(xs[0] + sep + Join(sep, xs[1..]), sep, x);
    }
  }

  function DigitChar(d: nat): (c: char)
    requires d < 10
    ensures IsDigit(c) && c as int - '0' as int == d
  {
    ('0' as int + d) as char
  }

  /** `Integer#to_s` for a non-negative integer: its decimal digits. */
  function NatToString(n: nat): (r: string)
    ensures |r| >= 1
    ensures forall i :: 0 <= i < |r| ==> IsDigit(r[i])
  {
    if n < 10 then [DigitChar(n)] else NatToString(n / 10) + [DigitChar(n % 10)]
  }

  /** The number a non-empty string of decimal digits denotes. */
  function DecimalValue(s: string): nat
    requires forall i :: 0 <= i < |s| ==> IsDigit(s[i])
  {
    if s == [] then 0
    else
      assert IsDigit(s[|s| - 1]);
      DecimalValue(s[..|s| - 1]) * 10 + (s[|s| - 1] as int - '0' as int)
  }

  lemma {:induction false} NatToStringRoundTrip(n: nat)
    ensures DecimalValue(NatToString(n)) == n
  {
    if n >= 10 {
      var s := NatToString(n);
      NatToStringRoundTrip(n / 10);
      assert s[..|s| - 1] == NatToString(n / 10);
    }
  }

  /** `Integer#to_s`: decimal digits, preceded by `-` when negative. */
  function IntToString(i: int): (r: string)
    ensures |r| >= 1
    ensures forall k :: 0 <= k < |r| ==> IsDigit(r[k]) || (k == 0 && r[k] == '-')
    ensures r[0] == '-' <==> i < 0
  {
    if i < 0 then "-" + NatToString(-i) else NatToString(i)
  }

  function LowerChar(c: char): (d: char)
  {
    if 'A' <= c <= 'Z' then (c as int - 'A' as int + 'a' as int) as char else c
  }

  /** `String#downcase`, restricted to the ASCII letters. */
  function Lower(s: string): (r: string)
    ensures |r| == |s|
    ensures forall i :: 0 <= i < |s| ==> r[i] == LowerChar(s[i])
  {
    if s == [] then [] else [LowerChar(s[0])] + Lower(s[1..])
  }

  // ---------------------------------------------------------------------
  // `String#split` with a one-character separator.

  /** Every field between separators, empty ones included (`split(c, -1)`). */
  function Fields(s: string, c: char): (r: seq<string>)
    ensures |r| >= 1
    ensures |r| == Count(s, c) + 1
    decreases |s|
  {
    match IndexOf(s, c)
    case None => [s]
    case Some(i) =>
      FieldsCount(s, c, i);
      [s[..i]] + Fields(s[i + 1..], c)
  }

  lemma FieldsCount(s: string, c: char, i: nat)
    requires i < |s| && s[i] == c && c !in s[..i]
    ensures Count(s, c) == Count(s[i + 1..], c) + 1
  {
    assert s == s[..i] + ([c] + s[i + 1..]);
    CountConcat(s[..i], [c] + s[i + 1..], c);
    CountConcat([c], s[i + 1..], c);
  }

  function DropTrailingEmpty(xs: seq<string>): (r: seq<string>)
    ensures |r| <= |xs| && r == xs[..|r|]
    ensures r != [] ==> r[|r| - 1] != ""
    ensures forall k :: |r| <= k < |xs| ==> xs[k] == ""
  {
    if xs != [] && xs[|xs| - 1] == "" then DropTrailingEmpty(xs[..|xs| - 1]) else xs
  }

  /** Ruby's `s.split(c)`: the fields, with trailing empty fields removed. */
  function Split(s: string, c: char): seq<string>
  {
    DropTrailingEmpty(Fields(s, c))
  }

  /** Ruby's `s.split(c)[k]`: `None` stands for `nil`. */
  function SplitAt(s: string, c: char, k: nat): Option<string>
  {
    var parts := Split(s, c);
    if k < |parts| then Some(parts[k]) else None
  }

  /** The text after the first `c`. */
  function AfterFirst(s: string, c: char): string
    requires c in s
  {
    s[IndexOf(s, c).value + 1..]
  }

  /** The text before the first `c`, or all of `s` if it has none. */
  function BeforeFirst(s: string, c: char): (r: string)
    ensures c !in r
  {
    match IndexOf(s, c)
    case None => s
    case Some(i) => s[..i]
  }

  predicate OnlyChar(s: string, c: char) { forall k :: 0 <= k < |s| ==> s[k] == c }

  predicate AllEmpty(xs: seq<string>) { forall k :: 0 <= k < |xs| ==> xs[k] == "" }

  lemma {:induction false} FieldsAllEmpty(t: string, c: char)
    ensures OnlyChar(t, c) <==> AllEmpty(Fields(t, c))
  {
    if OnlyChar(t, c) { OnlyCharFieldsEmpty(t, c); }
    if AllEmpty(Fields(t, c)) { FieldsEmptyOnlyChar(t, c); }
  }

  lemma {:induction false} OnlyCharFieldsEmpty(t: string, c: char)
    requires OnlyChar(t, c)
    ensures AllEmpty(Fields(t, c))
    decreases |t|
  {
    if t == [] {
      assert Fields(t, c) == [t];
    } else {
      assert t[0] == c;
      assert IndexOf(t, c) == Some(0);
      var f := Fields(t[1..], c);
      assert Fields(t, c) == [t[..0]] + f;
      assert OnlyChar(t[1..], c) by {
        forall k | 0 <= k < |t[1..]| ensures t[1..][k] == c { assert t[1..][k] == t[k + 1]; }
      }
      OnlyCharFieldsEmpty(t[1..], c);
    }
  }

  lemma {:induction false} FieldsEmptyOnlyChar(t: string, c: char)
    requires AllEmpty(Fields(t, c))
    ensures OnlyChar(t, c)
    decreases |t|
  {
    match IndexOf(t, c)
    case None =>
      assert Fields(t, c) == [t];
      assert t == Fields(t, c)[0];
    case Some(i) =>
      var rest := t[i + 1..];
      var f := Fields(rest, c);
      assert Fields(t, c) == [t[..i]] + f;
      assert t[..i] == Fields(t, c)[0];
      assert i == 0;
      assert AllEmpty(f) by {
        forall k | 0 <= k < |f| ensures f[k] == "" { assert f[k] == Fields(t, c)[k + 1]; }
      }
      FieldsEmptyOnlyChar(rest, c);
      forall k | 0 <= k < |t| ensures t[k] == c {
        if k > 0 { assert t[k] == rest[k - 1]; }
      }
  }

  lemma {:induction false} DropTrailingEmptyCons(a: string, f: seq<string>)
    ensures DropTrailingEmpty(f) != [] ==> DropTrailingEmpty([a] + f) == [a] + DropTrailingEmpty(f)
    ensures DropTrailingEmpty(f) == [] ==> |DropTrailingEmpty([a] + f)| <= 1
    ensures DropTrailingEmpty(f) == [] <==> AllEmpty(f)
    decreases |f|
  {
    if f != [] && f[|f| - 1] == "" {
      assert ([a] + f)[..|f|] == [a] + f[..|f| - 1];
      DropTrailingEmptyCons(a, f[..|f| - 1]);
      if AllEmpty(f[..|f| - 1]) {
        assert AllEmpty(f) by {
          forall k | 0 <= k < |f| ensures f[k] == "" {
            if k < |f| - 1 { assert f[..|f| - 1][k] == f[k]; }
          }
        }
      }
    }
  }

  /** What `s.split(c)[1]` is, stated without `split`: when `s` contains `c`
      it is `nil` exactly when nothing but separators follows the first `c`,
      and otherwise the text between the first and the second `c`. */
  lemma SplitSecondField(s: string, c: char)
    requires c in s
    ensures SplitAt(s, c, 1).None? <==> OnlyChar(AfterFirst(s, c), c)
    ensures SplitAt(s, c, 1).Some? ==> SplitAt(s, c, 1).value == BeforeFirst(AfterFirst(s, c), c)
  {
    var i := IndexOf(s, c).value;
    var t := AfterFirst(s, c);
    assert Fields(s, c) == [s[..i]] + Fields(t, c);
    DropTrailingEmptyCons(s[..i], Fields(t, c));
    FieldsAllEmpty(t, c);
    var ft := Fields(t, c);
    if DropTrailingEmpty(ft) != [] {
      assert DropTrailingEmpty(ft)[0] == ft[0];
      match IndexOf(t, c)
      case None => assert ft[0] == t;
      case Some(j) => assert ft[0] == t[..j];
    }
  }
}
