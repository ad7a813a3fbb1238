/**
 * The few Python `str` operations the installer relies on, restricted to
 * ASCII text: `isspace`, `isdigit`, `strip`, `split(None, 1)`, `lower` and
 * `int` of a digit string.
 */
module PyText {

  /** Python's `str.isspace` on ASCII: space, tab, line feed, vertical tab,
      form feed, carriage return and the separators 0x1c through 0x1f. */
  predicate IsSpace(c: char) {
    c == ' ' || 9 <= c as int <= 13 || 28 <= c as int <= 31
  }

  predicate IsDigitChar(c: char) {
    '0' <= c <= '9'
  }

  predicate AllSpace(s: string) {
    forall i :: 0 <= i < |s| ==> IsSpace(s[i])
  }

  predicate NoSpace(s: string) {
    forall i :: 0 <= i < |s| ==> !IsSpace(s[i])
  }

  /** Python's `str.isdigit` on ASCII: non-empty and every character a digit. */
  predicate IsDigits(s: string) {
    |s| > 0 && forall i :: 0 <= i < |s| ==> IsDigitChar(s[i])
  }

  /** `s.lstrip()`. Its shape is stated by `StripLeftShape`. */
  function StripLeft(s: string): (r: string)
    ensures |r| <= |s|
  {
    if s != [] && IsSpace(s[0]) then StripLeft(s[1..]) else s
  }

  /** `s.lstrip()` is the longest suffix of `s` that does not start with
      whitespace: what it drops is all whitespace. */
  lemma {:induction false} StripLeftShape(s: string)
    ensures StripLeft(s) == s[|s| - |StripLeft(s)|..]
    ensures AllSpace(s[..|s| - |StripLeft(s)|])
    ensures StripLeft(s) == [] || !IsSpace(StripLeft(s)[0])
  {
    if s != [] && IsSpace(s[0]) {
      StripLeftShape(s[1..]);
      var m := |s| - |StripLeft(s)|;
      assert s[1..][..m - 1] == s[1..m];
    }
  }

  /** `s.rstrip()`. Its shape is stated by `StripRightShape`. */
  function StripRight(s: string): (r: string)
    ensures |r| <= |s|
  {
    if s != [] && IsSpace(s[|s| - 1]) then StripRight(s[..|s| - 1]) else s
  }

  /** `s.rstrip()` is the longest prefix of `s` that does not end with
      whitespace: what it drops is all whitespace. */
  lemma {:induction false} StripRightShape(s: string)
    ensures StripRight(s) == s[..|StripRight(s)|]
    ensures AllSpace(s[|StripRight(s)|..])
    ensures StripRight(s) == [] || !IsSpace(StripRight(s)[|StripRight(s)| - 1])
  {
    if s != [] && IsSpace(s[|s| - 1]) {
      StripRightShape(s[..|s| - 1]);
      var r := StripRight(s);
      assert s[..|s| - 1][..|r|] == s[..|r|];
      assert s[|r|..] == s[..|s| - 1][|r|..] + [s[|s| - 1]];
    }
  }

  /** `s.strip()`. */
  function Strip(s: string): string {
    StripRight(StripLeft(s))
  }

  /** The longest prefix of `s` that holds no whitespace. */
  function TakeWord(s: string): (r: string)
    ensures |r| <= |s| && r == s[..|r|]
    ensures NoSpace(r)
    ensures |r| == |s| || IsSpace(s[|r|])
  {
    if s == [] || IsSpace(s[0]) then [] else [s[0]] + TakeWord(s[1..])
  }

  /** `s.split(None, 1)`: skip leading whitespace, cut the first word, skip the
      whitespace run after it and keep whatever remains (trailing whitespace
      included) as the second part when it is not empty. */
  function SplitOnce(s: string): (parts: seq<string>)
    ensures |parts| <= 2
    ensures parts == [] <==> AllSpace(s)
    ensures forall k :: 0 <= k < |parts| ==> parts[k] != [] && !IsSpace(parts[k][0])
    ensures |parts| > 0 ==> NoSpace(parts[0])
    ensures |parts| == 1 ==> exists a, b :: AllSpace(a) && AllSpace(b) && s == a + parts[0] + b
    ensures |parts| == 2 ==>
              exists a, b :: AllSpace(a) && AllSpace(b) && b != [] && s == a + parts[0] + b + parts[1]
  {
    var t := StripLeft(s);
    StripLeftShape(s);
    if t == [] then
      assert AllSpace(s) by { assert s[..|s|] == s; }
      []
    else
      assert !AllSpace(s) by { assert s[|s| - |t|] == t[0]; }
      var word := TakeWord(t);
      var u := t[|word|..];
      var rest := StripLeft(u);
      SplitPieces(s);
      var a, b := s[..|s| - |t|], u[..|u| - |rest|];
      if rest == [] then
        assert s == a + word + b by { assert a + word + b + rest == a + word + b; }
        [word]
      else
        [word, rest]
  }

  /** The text around the first word and the rest it leaves is whitespace:
      leading whitespace, the word, a whitespace run (non-empty when a rest
      follows) and the rest. */
  lemma SplitPieces(s: string)
    requires StripLeft(s) != []
    ensures var t := StripLeft(s);
            var u := t[|TakeWord(t)|..];
            var rest := StripLeft(u);
            s == s[..|s| - |t|] + TakeWord(t) + u[..|u| - |rest|] + rest &&
            AllSpace(s[..|s| - |t|]) && AllSpace(u[..|u| - |rest|]) &&
            (rest != [] ==> u[..|u| - |rest|] != [] && !IsSpace(rest[0]))
  {
    var t := StripLeft(s);
    StripLeftShape(s);
    var word := TakeWord(t);
    var u := t[|word|..];
    var rest := StripLeft(u);
    StripLeftShape(u);
    Reassemble(s, t, u, |s| - |t|, |word|, |u| - |rest|);
    if rest != [] {
      assert IsSpace(u[0]) && !IsSpace(rest[0]);
    }
  }

  /** Cutting `s` at `i`, the suffix `t` at `j` and that suffix's suffix `u` at
      `k` gives four pieces that put back together make `s`. */
  lemma Reassemble(s: string, t: string, u: string, i: nat, j: nat, k: nat)
    requires i <= |s| && t == s[i..] && j <= |t| && u == t[j..] && k <= |u|
    ensures s == s[..i] + t[..j] + u[..k] + u[k..]
  {
    assert s[..i] + t[..j] == s[..i + j];
    assert s[..i + j] + u[..k] == s[..i + j + k];
    assert u[k..] == s[i + j + k..];
  }

  /** When `t` starts with a word followed by whitespace and does not end in
      whitespace, `t.split(None, 1)` has two parts, the first being that word. */
  lemma SplitOnceAt(t: string, i: nat)
    requires 0 < i < |t| && NoSpace(t[..i]) && IsSpace(t[i])
    requires !IsSpace(t[0]) && !IsSpace(t[|t| - 1])
    ensures |SplitOnce(t)| == 2 && SplitOnce(t)[0] == t[..i]
  {
    StripLeftShape(t);
    assert StripLeft(t) == t;
    var word := TakeWord(t);
    forall j | 0 <= j < i
      ensures !IsSpace(t[j])
    {
      assert t[..i][j] == t[j];
    }
    assert |word| == i;
    var tail := t[i..];
    assert tail[|tail| - 1] == t[|t| - 1];
    StripLeftShape(tail);
    assert StripLeft(tail) != [];
    assert SplitOnce(t) == [word, StripLeft(tail)];
  }

  /** When `t` does not start with whitespace and `t.split(None, 1)` has two
      parts, the first part is followed by whitespace in `t`. */
  lemma SplitOnceTwo(t: string)
    requires t != [] && !IsSpace(t[0]) && |SplitOnce(t)| == 2
    ensures |SplitOnce(t)[0]| < |t| && SplitOnce(t)[0] == t[..|SplitOnce(t)[0]|]
    ensures IsSpace(t[|SplitOnce(t)[0]|])
  {
    StripLeftShape(t);
    assert StripLeft(t) == t;
  }

  /** `s.lower()` on ASCII letters. */
  function LowerChar(c: char): char {
    if 'A' <= c <= 'Z' then (c as int + 32) as char else c
  }

  function Lower(s: string): (r: string)
    ensures |r| == |s|
  {
    seq(|s|, i requires 0 <= i < |s| => LowerChar(s[i]))
  }

  /** `[d.lower() for d in names]`. */
  function LowerAll(names: seq<string>): (r: seq<string>)
    ensures |r| == |names|
    ensures forall k :: 0 <= k < |names| ==> r[k] == Lower(names[k])
  {
    if names == [] then [] else [Lower(names[0])] + LowerAll(names[1..])
  }

  /** A name matches a lower-cased list exactly when some entry of the original
      list equals it ignoring case. */
  lemma {:induction false} InLowerAll(name: string, names: seq<string>)
    ensures Lower(name) in LowerAll(names) <==> exists e :: e in names && Lower(e) == Lower(name)
  {
    if names != [] {
      InLowerAll(name, names[1..]);
      assert forall e :: e in names <==> e == names[0] || e in names[1..];
    }
  }

  /** Lower-casing leaves a backslash or slash where it was, and puts one nowhere else. */
  lemma LowerKeepsSeparators(s: string, c: char)
    requires c == '\\' || c == '/'
    ensures c in Lower(s) <==> c in s
  {
    if c in s {
      var i :| 0 <= i < |s| && s[i] == c;
      assert Lower(s)[i] == c;
    }
    if c in Lower(s) {
      var i :| 0 <= i < |s| && Lower(s)[i] == c;
      assert s[i] == c;
    }
  }

  function DigitValue(c: char): nat
    requires IsDigitChar(c)
  {
    c as int - '0' as int
  }

  /** `int(s)` of a string of ASCII digits. */
  function DigitsValue(s: string): nat
    requires forall i :: 0 <= i < |s| ==> IsDigitChar(s[i])
  {
    if s == [] then 0 else 10 * DigitsValue(s[..|s| - 1]) + DigitValue(s[|s| - 1])
  }

  /** The decimal notation of `n`, without leading zeros. */
  function NatToDigits(n: nat): (s: string)
    ensures IsDigits(s)
    ensures n > 0 ==> s[0] != '0'
  {
    if n < 10 then ["0123456789"[n]] else NatToDigits(n / 10) + ["0123456789"[n % 10]]
  }

  /** `int(str(n)) == n`. */
  lemma {:induction false} DigitsRoundTrip(n: nat)
    ensures DigitsValue(NatToDigits(n)) == n
  {
    var s := NatToDigits(n);
    if n >= 10 {
      DigitsRoundTrip(n / 10);
      assert s[..|s| - 1] == NatToDigits(n / 10);
    }
  }
}
