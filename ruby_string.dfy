/** The few Ruby String operations the checkout helper relies on, written out
    for strings of characters: `split` with no argument (split on white
    space), `split("\n")`, `strip`, `to_i` and `Integer#to_s`. */
module RubyString {

  // ---------------------------------------------------------------------
  // Character classes
  // ---------------------------------------------------------------------

  /** ASCII white space as Ruby's `split` and `to_i` see it:
      space, \t, \n, \v, \f and \r. */
  predicate IsSpace(c: char) {
    c == ' ' || c == '\t' || c == '\n' || c == '\U{000B}' || c == '\U{000C}' || c == '\r'
  }

  /** What `strip` removes: the white space above and the NUL character. */
  predicate IsStripSpace(c: char) {
    c == '\0' || IsSpace(c)
  }

  predicate IsDigit(c: char) {
    '0' <= c <= '9'
  }

  predicate AllDigits(s: string) {
    forall k :: 0 <= k < |s| ==> IsDigit(s[k])
  }

  predicate AllSpace(s: string) {
    forall k :: 0 <= k < |s| ==> IsSpace(s[k])
  }

  predicate AllStripSpace(s: string) {
    forall k :: 0 <= k < |s| ==> IsStripSpace(s[k])
  }

  // ---------------------------------------------------------------------
  // String#split (no argument): the white-space separated words
  // ---------------------------------------------------------------------

  /** A word: non-empty, with no white space in it. */
  predicate IsWord(w: string) {
    w != [] && forall k :: 0 <= k < |w| ==> !IsSpace(w[k])
  }

  /** Length of the run of non-space characters at the front of `s`. */
  function WordEnd(s: string): (n: nat)
    ensures n <= |s|
    ensures forall k :: 0 <= k < n ==> !IsSpace(s[k])
    ensures n < |s| ==> IsSpace(s[n])
  {
    if s == [] || IsSpace(s[0]) then 0 else 1 + WordEnd(s[1..])
  }

  /** `s.split`: leading, trailing and repeated white space is ignored and
      every maximal run of other characters is one word. */
  function Words(s: string): (ws: seq<string>)
    ensures forall i :: 0 <= i < |ws| ==> IsWord(ws[i])
    decreases |s|
  {
    if s == [] then []
    else if IsSpace(s[0]) then Words(s[1..])
    else
      var n := WordEnd(s);
      [s[..n]] + Words(s[n..])
  }

  /** The words joined by single spaces (the inverse of `Words`). */
  function Unwords(ws: seq<string>): string {
    if ws == [] then ""
    else if |ws| == 1 then ws[0]
    else ws[0] + " " + Unwords(ws[1..])
  }

  lemma WordEndOfWord(w: string, rest: string)
    requires IsWord(w)
    requires rest == [] || IsSpace(rest[0])
    ensures WordEnd(w + rest) == |w|
  {
    assert (w + rest)[1..] == w[1..] + rest;
    if |w| > 1 {
      WordEndOfWord(w[1..], rest);
    }
  }

  /** Splitting words that were joined by single spaces gives them back. */
  lemma {:induction false} WordsOfUnwords(ws: seq<string>)
    requires forall i :: 0 <= i < |ws| ==> IsWord(ws[i])
    ensures Words(Unwords(ws)) == ws
  {
    if ws == [] {
    } else if |ws| == 1 {
      WordsOfWord(ws[0]);
    } else {
      WordsCons(ws[0], Unwords(ws[1..]));
      WordsOfUnwords(ws[1..]);
      assert ws == [ws[0]] + ws[1..];
    }
  }

  lemma WordsOfWord(w: string)
    requires IsWord(w)
    ensures Words(w) == [w]
  {
    WordEndOfWord(w, []);
    assert w + [] == w;
    assert w[|w|..] == [];
    assert w[..|w|] == w;
  }

  lemma WordsCons(w: string, tail: string)
    requires IsWord(w)
    ensures Words(w + " " + tail) == [w] + Words(tail)
  {
    var s := w + " " + tail;
    assert s == w + (" " + tail);
    WordEndOfWord(w, " " + tail);
    assert s[..|w|] == w;
    assert s[|w|..] == " " + tail;
    assert (" " + tail)[1..] == tail;
  }

  /** The first word of `s` is the run of non-space characters that
      starts after its leading white space, and there is none exactly when
      `s` is all white space. */
  lemma {:induction false} FirstWord(s: string)
    ensures Words(s) == [] <==> SkipSpaces(s) == []
    ensures SkipSpaces(s) != [] ==> Words(s)[0] == SkipSpaces(s)[..WordEnd(SkipSpaces(s))]
    decreases |s|
  {
    if s != [] && IsSpace(s[0]) {
      FirstWord(s[1..]);
    }
  }

  /** White space in front of a text yields no word. */
  lemma {:induction false} WordsSkipsSpace(sp: string, s: string)
    requires AllSpace(sp)
    ensures Words(sp + s) == Words(s)
    decreases |sp|
  {
    if sp == [] {
      assert sp + s == s;
    } else {
      assert (sp + s)[1..] == sp[1..] + s;
      WordsSkipsSpace(sp[1..], s);
    }
  }

  /** A word followed by any run of white space is one word, and the
      words of the rest follow it. */
  lemma WordsAfterWord(w: string, sp: string, t: string)
    requires IsWord(w) && sp != [] && AllSpace(sp)
    ensures Words(w + sp + t) == [w] + Words(t)
  {
    var s := w + (sp + t);
    assert w + sp + t == s;
    WordEndOfWord(w, sp + t);
    assert s[..|w|] == w;
    assert s[|w|..] == sp + t;
    WordsSkipsSpace(sp, t);
  }

  function Last(ws: seq<string>): string
    requires ws != []
  {
    ws[|ws| - 1]
  }

  // ---------------------------------------------------------------------
  // String#strip
  // ---------------------------------------------------------------------

  /** `s.lstrip`: drops the strip-space characters at the front. */
  function LStrip(s: string): (r: string)
    ensures |r| <= |s|
    ensures r == [] || !IsStripSpace(r[0])
  {
    if s != [] && IsStripSpace(s[0]) then LStrip(s[1..]) else s
  }

  /** `lstrip` keeps a suffix and removes only strip-space characters. */
  lemma {:induction false} LStripRemovesSpace(s: string)
    ensures LStrip(s) == s[|s| - |LStrip(s)|..]
    ensures AllStripSpace(s[..|s| - |LStrip(s)|])
    decreases |s|
  {
    if s != [] && IsStripSpace(s[0]) {
      var r := LStrip(s[1..]);
      LStripRemovesSpace(s[1..]);
      assert s[..|s| - |r|] == [s[0]] + s[1..][..|s| - 1 - |r|];
    }
  }

  /** `s.rstrip`: drops the strip-space characters at the end. */
  function RStrip(s: string): (r: string)
    ensures |r| <= |s|
    ensures r != [] ==> r[0] == s[0]
    ensures r == [] || !IsStripSpace(r[|r| - 1])
  {
    if s != [] && IsStripSpace(s[|s| - 1]) then RStrip(s[..|s| - 1]) else s
  }

  /** `rstrip` keeps a prefix and removes only strip-space characters. */
  lemma {:induction false} RStripRemovesSpace(s: string)
    ensures RStrip(s) == s[..|RStrip(s)|]
    ensures AllStripSpace(s[|RStrip(s)|..])
    decreases |s|
  {
    if s != [] && IsStripSpace(s[|s| - 1]) {
      var r := RStrip(s[..|s| - 1]);
      RStripRemovesSpace(s[..|s| - 1]);
      assert s[|r|..] == s[..|s| - 1][|r|..] + [s[|s| - 1]];
    }
  }

  /** A string with no strip-space character at either end. */
  predicate IsTrimmed(s: string) {
    s == [] || (!IsStripSpace(s[0]) && !IsStripSpace(s[|s| - 1]))
  }

  /** `s.strip`: `s` without the strip-space characters at either end. */
  function Strip(s: string): (r: string)
    ensures IsTrimmed(r)
    ensures |r| <= |s|
  {
    RStrip(LStrip(s))
  }

  lemma LStripPadded(pre: string, m: string)
    requires AllStripSpace(pre)
    requires m == [] || !IsStripSpace(m[0])
    ensures LStrip(pre + m) == m
    decreases |pre|
  {
    if pre != [] {
      assert (pre + m)[1..] == pre[1..] + m;
      LStripPadded(pre[1..], m);
    } else {
      assert pre + m == m;
    }
  }

  lemma RStripPadded(m: string, post: string)
    requires AllStripSpace(post)
    requires m == [] || !IsStripSpace(m[|m| - 1])
    ensures RStrip(m + post) == m
    decreases |post|
  {
    if post != [] {
      var s := m + post;
      assert s[..|s| - 1] == m + post[..|post| - 1];
      RStripPadded(m, post[..|post| - 1]);
    } else {
      assert m + post == m;
    }
  }

  /** `strip` removes exactly the padding around a trimmed string. */
  lemma {:induction false} StripPadded(pre: string, m: string, post: string)
    requires AllStripSpace(pre) && AllStripSpace(post)
    requires IsTrimmed(m)
    ensures Strip(pre + m + post) == m
  {
    if m == [] {
      assert pre + m + post == pre + post;
      if post == [] {
        assert pre + post == pre + [];
        LStripPadded(pre, []);
      } else {
        LStripPadded(pre, post[..0]);
        assert pre + post == pre + post;
        StripAllSpace(pre + post);
      }
    } else {
      assert pre + m + post == pre + (m + post);
      LStripPadded(pre, m + post);
      RStripPadded(m, post);
    }
  }

  lemma StripAllSpace(s: string)
    requires AllStripSpace(s)
    ensures Strip(s) == []
  {
    assert s + [] == s;
    LStripPadded(s, []);
  }

  /** `strip` is idempotent. */
  lemma StripIdempotent(s: string)
    ensures Strip(Strip(s)) == Strip(s)
  {
    var m := Strip(s);
    assert [] + m + [] == m;
    StripPadded([], m, []);
  }

  // ---------------------------------------------------------------------
  // String#to_i and Integer#to_s (base 10)
  // ---------------------------------------------------------------------

  function DigitValue(c: char): nat
    requires IsDigit(c)
  {
    (c as int) - ('0' as int)
  }

  function DigitChar(d: nat): (c: char)
    requires d < 10
    ensures IsDigit(c) && DigitValue(c) == d
  {
    ('0' as int + d) as char
  }

  /** The value of a string of decimal digits. */
  function DigitsValue(ds: string): nat
    requires AllDigits(ds)
  {
    if ds == [] then 0 else 10 * DigitsValue(ds[..|ds| - 1]) + DigitValue(ds[|ds| - 1])
  }

  /** `s` without its leading white space. */
  function SkipSpaces(s: string): (r: string)
    ensures |r| <= |s| && r == s[|s| - |r|..]
    ensures r == [] || !IsSpace(r[0])
  {
    if s != [] && IsSpace(s[0]) then SkipSpaces(s[1..]) else s
  }

  /** The digits of the longest prefix of `s` of the form digit (`_`? digit)*,
      with the underscores left out: Ruby accepts one underscore between two
      digits of a number literal. */
  function DigitRun(s: string): (ds: string)
    ensures AllDigits(ds) && |ds| <= |s|
  {
    if s == [] || !IsDigit(s[0]) then []
    else if |s| >= 2 && s[1] == '_' then
      if |s| >= 3 && IsDigit(s[2]) then [s[0]] + DigitRun(s[2..]) else [s[0]]
    else [s[0]] + DigitRun(s[1..])
  }

  /** `s.to_i`: leading white space, an optional sign, an optional `0d`
      prefix, then the digit run above; 0 when there are no digits. */
  function ToI(s: string): (r: int)
    ensures (forall k :: 0 <= k < |s| ==> !IsDigit(s[k])) ==> r == 0
  {
    var t := SkipSpaces(s);
    assert forall k :: 0 <= k < |t| ==> t[k] == s[|s| - |t| + k];
    SignedValueOfNoDigits(t);
    SignedValue(t)
  }

  /** The value of an optional sign followed by an unsigned number. */
  function SignedValue(t: string): int {
    var u := if t != [] && (t[0] == '-' || t[0] == '+') then t[1..] else t;
    var n: int := UnsignedValue(u);
    if t != [] && t[0] == '-' then -n else n
  }

  /** The value of an optional `0d` prefix followed by the digit run. */
  function UnsignedValue(u: string): nat {
    var v := if |u| >= 2 && u[0] == '0' && (u[1] == 'd' || u[1] == 'D') then u[2..] else u;
    DigitsValue(DigitRun(v))
  }

  lemma SignedValueOfNoDigits(t: string)
    ensures (forall k :: 0 <= k < |t| ==> !IsDigit(t[k])) ==> SignedValue(t) == 0
  {
    var u := if t != [] && (t[0] == '-' || t[0] == '+') then t[1..] else t;
    UnsignedValueOfNoDigits(u);
  }

  lemma UnsignedValueOfNoDigits(u: string)
    ensures (forall k :: 0 <= k < |u| ==> !IsDigit(u[k])) ==> UnsignedValue(u) == 0
  {
    var v := if |u| >= 2 && u[0] == '0' && (u[1] == 'd' || u[1] == 'D') then u[2..] else u;
    assert v != [] ==> v[0] == u[|u| - |v|];
  }

  /** A string that starts with neither white space, a sign nor a digit
      reads as 0. */
  lemma ToIOfNonNumeric(s: string)
    requires s != [] && !IsSpace(s[0]) && !IsDigit(s[0]) && s[0] != '-' && s[0] != '+'
    ensures ToI(s) == 0
  {
    assert SkipSpaces(s) == s;
  }

  /** `n.to_s` for a natural number. */
  function NatToS(n: nat): (s: string)
    ensures s != [] && AllDigits(s)
    ensures s[0] == '0' ==> n == 0 && s == "0"
  {
    if n < 10 then [DigitChar(n)] else NatToS(n / 10) + [DigitChar(n % 10)]
  }

  /** `n.to_s` for an integer. */
  function IntToS(n: int): (s: string)
    ensures s != []
  {
    if n < 0 then "-" + NatToS(-n) else NatToS(n)
  }

  lemma {:induction false} DigitRunOfDigits(s: string)
    requires AllDigits(s)
    ensures DigitRun(s) == s
  {
    if s != [] {
      DigitRunOfDigits(s[1..]);
      assert s == [s[0]] + s[1..];
    }
  }

  lemma {:induction false} DigitsValueOfNatToS(n: nat)
    ensures DigitsValue(NatToS(n)) == n
  {
    var s := NatToS(n);
    if n >= 10 {
      DigitsValueOfNatToS(n / 10);
      assert s[..|s| - 1] == NatToS(n / 10);
    }
  }

  lemma NatToSValue(n: nat)
    ensures DigitsValue(DigitRun(NatToS(n))) == n
  {
    DigitRunOfDigits(NatToS(n));
    DigitsValueOfNatToS(n);
  }

  /** `to_i` reads back what `to_s` writes. */
  lemma ToIOfIntToS(n: int)
    ensures ToI(IntToS(n)) == n
  {
    if n < 0 {
      ToIOfSignedDigits("-" + NatToS(-n), -n);
    } else {
      ToIOfSignedDigits(NatToS(n), n);
    }
  }

  /** The digits of `n`, or a minus sign and the digits of `n`, read as
      `n` or its negation. */
  lemma ToIOfSignedDigits(s: string, n: nat)
    requires s == NatToS(n) || s == "-" + NatToS(n)
    ensures ToI(s) == if s[0] == '-' then -(n as int) else n as int
  {
    var ds := NatToS(n);
    assert SkipSpaces(s) == s by {
      assert !IsSpace(s[0]);
    }
    var u := if s[0] == '-' then s[1..] else s;
    assert u == ds;
    assert DigitsValue(DigitRun(ds)) == n by {
      NatToSValue(n);
    }
  }

  /** White space in front of a text that starts with something else is
      exactly what `SkipSpaces` removes. */
  lemma {:induction false} SkipSpacesOfPadded(sp: string, t: string)
    requires AllSpace(sp) && t != [] && !IsSpace(t[0])
    ensures SkipSpaces(sp + t) == t
    decreases |sp|
  {
    var s := sp + t;
    if sp == [] {
      assert s == t;
    } else {
      assert s[0] == sp[0] && IsSpace(s[0]);
      assert s[1..] == sp[1..] + t;
      SkipSpacesOfPadded(sp[1..], t);
    }
  }

  /** The digit run of digits followed by text that can neither continue
      the number nor join it with `_` is those digits. */
  lemma {:induction false} DigitRunStops(ds: string, rest: string)
    requires ds != [] && AllDigits(ds)
    requires rest == [] || (!IsDigit(rest[0]) && rest[0] != '_')
    ensures DigitRun(ds + rest) == ds
    decreases |ds|
  {
    var s := ds + rest;
    if |ds| == 1 {
      assert s[1..] == rest;
    } else {
      assert s[1..] == ds[1..] + rest;
      DigitRunStops(ds[1..], rest);
      assert ds == [ds[0]] + ds[1..];
    }
  }

  /** `to_i` reads the number at the front of the text: leading white
      space is skipped, a `+` or `-` sign is read, the digits are read
      whatever their leading zeros, and whatever follows them (a space, a
      letter, any other text) is ignored, so `" 3"`, `"+3"`, `"3 "`, `"3x"`
      and `"03"` all read as 3 and `"-007"` as -7. The text after the
      digits must not continue the number: no digit, no `_`, and after a
      lone `0` no `d` (which would make `0d` a prefix). */
  lemma ToIOfPrefix(sp: string, sign: string, ds: string, rest: string)
    requires AllSpace(sp)
    requires sign == "" || sign == "+" || sign == "-"
    requires ds != [] && AllDigits(ds)
    requires rest == [] || (!IsDigit(rest[0]) && rest[0] != '_')
    requires ds == "0" && rest != [] ==> rest[0] != 'd' && rest[0] != 'D'
    ensures ToI(sp + sign + ds + rest) == if sign == "-" then -(DigitsValue(ds) as int) else DigitsValue(ds) as int
  {
    var t := sign + ds + rest;
    assert sp + sign + ds + rest == sp + t by { ConcatAssoc(sp, sign, ds, rest); }
    assert !IsSpace(t[0]) by {
      if sign == "" { assert t[0] == ds[0]; }
    }
    ToIOfPadded(sp, t);
    ToIOfSignedRun(sign, ds, rest);
  }

  lemma ConcatAssoc(a: string, b: string, c: string, d: string)
    ensures a + b + c + d == a + (b + c + d)
  {
  }

  /** Leading white space does not change what `to_i` reads. */
  lemma ToIOfPadded(sp: string, t: string)
    requires AllSpace(sp) && t != [] && !IsSpace(t[0])
    ensures ToI(sp + t) == ToI(t)
  {
    assert SkipSpaces(sp + t) == t by { SkipSpacesOfPadded(sp, t); }
    assert SkipSpaces(t) == t;
  }

  /** An optional sign and a run of digits, followed by text that does not
      continue the number, read as the digits' value or its negation. */
  lemma ToIOfSignedRun(sign: string, ds: string, rest: string)
    requires sign == "" || sign == "+" || sign == "-"
    requires ds != [] && AllDigits(ds)
    requires rest == [] || (!IsDigit(rest[0]) && rest[0] != '_')
    requires ds == "0" && rest != [] ==> rest[0] != 'd' && rest[0] != 'D'
    ensures ToI(sign + ds + rest) == if sign == "-" then -(DigitsValue(ds) as int) else DigitsValue(ds) as int
  {
    var u := ds + rest;
    assert sign + ds + rest == sign + u;
    assert u[0] == ds[0];
    ToIOfSign(sign, u);
    UnsignedValueOfRun(ds, rest);
  }

  /** An optional sign in front of a text that starts with a digit reads as
      the text's unsigned value or its negation. */
  lemma ToIOfSign(sign: string, u: string)
    requires sign == "" || sign == "+" || sign == "-"
    requires u != [] && IsDigit(u[0])
    ensures ToI(sign + u) == if sign == "-" then -(UnsignedValue(u) as int) else UnsignedValue(u) as int
  {
    var t := sign + u;
    if sign == "" {
      assert t == u;
    } else {
      assert t[0] == sign[0] && t[1..] == u;
    }
    ToIOfUnpadded(t);
  }

  /** Text that does not start with white space is read from its first
      character on. */
  lemma ToIOfUnpadded(t: string)
    requires t != [] && !IsSpace(t[0])
    ensures ToI(t) == SignedValue(t)
  {
    assert SkipSpaces(t) == t;
  }

  /** A run of digits, followed by text that does not continue the number,
      is worth the digits' value. */
  lemma UnsignedValueOfRun(ds: string, rest: string)
    requires ds != [] && AllDigits(ds)
    requires rest == [] || (!IsDigit(rest[0]) && rest[0] != '_')
    requires ds == "0" && rest != [] ==> rest[0] != 'd' && rest[0] != 'D'
    ensures UnsignedValue(ds + rest) == DigitsValue(ds)
  {
    var u := ds + rest;
    assert !(|u| >= 2 && u[0] == '0' && (u[1] == 'd' || u[1] == 'D')) by {
      assert u[0] == ds[0];
      if |ds| == 1 {
        if rest != [] { assert u[1] == rest[0]; }
        if ds[0] == '0' { assert ds == "0"; }
      } else {
        assert u[1] == ds[1] && IsDigit(ds[1]);
      }
    }
    DigitRunStops(ds, rest);
  }

  // ---------------------------------------------------------------------
  // String#split("\n")
  // ---------------------------------------------------------------------

  predicate IsLine(s: string) {
    '\n' !in s
  }

  /** The pieces between the newlines of `s`, empty pieces included. */
  function SplitFields(s: string): (fs: seq<string>)
    ensures |fs| >= 1
    ensures forall i :: 0 <= i < |fs| ==> IsLine(fs[i])
  {
    if s == [] then [""]
    else
      var rest := SplitFields(s[1..]);
      if s[0] == '\n' then [""] + rest
      else [[s[0]] + rest[0]] + rest[1..]
  }

  function DropTrailingEmpty(fs: seq<string>): (r: seq<string>)
    ensures |r| <= |fs| && r == fs[..|r|]
    ensures r == [] || r[|r| - 1] != ""
    ensures forall i :: |r| <= i < |fs| ==> fs[i] == ""
  {
    if fs != [] && fs[|fs| - 1] == "" then DropTrailingEmpty(fs[..|fs| - 1]) else fs
  }

  /** `s.split("\n")`: the lines of `s`; Ruby drops the empty strings at the
      end, so an empty text has no lines and the last line is never empty. */
  function SplitLines(s: string): (ls: seq<string>)
    ensures forall i :: 0 <= i < |ls| ==> IsLine(ls[i])
    ensures ls == [] || ls[|ls| - 1] != ""
  {
    DropTrailingEmpty(SplitFields(s))
  }

  /** The lines joined by newlines (the inverse of `SplitLines`). */
  function JoinLines(ls: seq<string>): string {
    if ls == [] then ""
    else if |ls| == 1 then ls[0]
    else ls[0] + "\n" + JoinLines(ls[1..])
  }

  lemma {:induction false} SplitFieldsOfLine(a: string)
    requires IsLine(a)
    ensures SplitFields(a) == [a]
  {
    if a != [] {
      SplitFieldsOfLine(a[1..]);
      assert a == [a[0]] + a[1..];
    }
  }

  lemma {:induction false} SplitFieldsCons(a: string, r: string)
    requires IsLine(a)
    ensures SplitFields(a + "\n" + r) == [a] + SplitFields(r)
  {
    var s := a + "\n" + r;
    if a == [] {
      assert s == "\n" + r;
      assert s[1..] == r;
    } else {
      assert s[1..] == a[1..] + "\n" + r;
      SplitFieldsCons(a[1..], r);
      assert a == [a[0]] + a[1..];
    }
  }

  lemma {:induction false} SplitFieldsOfJoin(ls: seq<string>)
    requires ls != []
    requires forall i :: 0 <= i < |ls| ==> IsLine(ls[i])
    ensures SplitFields(JoinLines(ls)) == ls
  {
    if |ls| == 1 {
      SplitFieldsOfLine(ls[0]);
    } else {
      SplitFieldsCons(ls[0], JoinLines(ls[1..]));
      SplitFieldsOfJoin(ls[1..]);
      assert ls == [ls[0]] + ls[1..];
    }
  }

  lemma {:induction false} JoinLinesSnoc(ls: seq<string>, l: string)
    requires ls != []
    ensures JoinLines(ls + [l]) == JoinLines(ls) + "\n" + l
  {
    if |ls| == 1 {
      assert ls + [l] == [ls[0], l];
    } else {
      assert (ls + [l])[1..] == ls[1..] + [l];
      JoinLinesSnoc(ls[1..], l);
    }
  }

  /** Splitting lines that were joined by newlines gives them back, whether
      or not the text ends in a newline (as `git log` output does). */
  lemma SplitLinesOfJoin(ls: seq<string>)
    requires forall i :: 0 <= i < |ls| ==> IsLine(ls[i])
    requires ls == [] || ls[|ls| - 1] != ""
    ensures SplitLines(JoinLines(ls)) == ls
    ensures SplitLines(JoinLines(ls) + "\n") == ls
  {
    SplitLinesOfUnterminatedJoin(ls);
    SplitLinesOfTerminatedJoin(ls);
  }

  lemma SplitLinesOfUnterminatedJoin(ls: seq<string>)
    requires forall i :: 0 <= i < |ls| ==> IsLine(ls[i])
    requires ls == [] || ls[|ls| - 1] != ""
    ensures SplitLines(JoinLines(ls)) == ls
  {
    if ls != [] {
      SplitFieldsOfJoin(ls);
    }
  }

  lemma SplitLinesOfTerminatedJoin(ls: seq<string>)
    requires forall i :: 0 <= i < |ls| ==> IsLine(ls[i])
    requires ls == [] || ls[|ls| - 1] != ""
    ensures SplitLines(JoinLines(ls) + "\n") == ls
  {
    if ls == [] {
      assert JoinLines(ls) + "\n" == "\n";
      SplitLinesOfNewline();
    } else {
      SplitFieldsOfTerminatedJoin(ls);
    }
  }

  /** A text that is one newline has no lines. */
  lemma SplitLinesOfNewline()
    ensures SplitLines("\n") == []
  {
    var two: seq<string> := ["", ""];
    calc {
      SplitLines("\n");
      DropTrailingEmpty(SplitFields("\n"));
    ==  { SplitFieldsCons("", ""); assert "" + "\n" + "" == "\n"; }
      DropTrailingEmpty(two);
    ==  { assert two[..1] == [""]; }
      DropTrailingEmpty([""]);
    ==  { assert [""][..0] == []; }
      DropTrailingEmpty([]);
    }
  }

  lemma SplitFieldsOfTerminatedJoin(ls: seq<string>)
    requires ls != []
    requires forall i :: 0 <= i < |ls| ==> IsLine(ls[i])
    requires ls[|ls| - 1] != ""
    ensures DropTrailingEmpty(SplitFields(JoinLines(ls) + "\n")) == ls
  {
    calc {
      DropTrailingEmpty(SplitFields(JoinLines(ls) + "\n"));
    ==  { JoinLinesSnoc(ls, "");
          assert JoinLines(ls) + "\n" + "" == JoinLines(ls) + "\n"; }
      DropTrailingEmpty(SplitFields(JoinLines(ls + [""])));
    ==  { LinesSnocEmpty(ls);
          SplitFieldsOfJoin(ls + [""]); }
      DropTrailingEmpty(ls + [""]);
    ==  { DropTrailingEmptySnoc(ls); }
      ls;
    }
  }

  lemma LinesSnocEmpty(ls: seq<string>)
    requires forall i :: 0 <= i < |ls| ==> IsLine(ls[i])
    ensures forall i :: 0 <= i < |ls + [""]| ==> IsLine((ls + [""])[i])
  {
  }

  lemma DropTrailingEmptySnoc(ls: seq<string>)
    requires ls != [] && ls[|ls| - 1] != ""
    ensures DropTrailingEmpty(ls + [""]) == ls
  {
    assert (ls + [""])[..|ls|] == ls;
  }
}
