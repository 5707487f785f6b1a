/**
 * The Python string operations the core relies on, over `string` (a sequence of
 * code points): `str.split` with a one-character separator, `str.join`,
 * `str.strip(chars)`, `str.isnumeric` and `int(str)`.
 */
module PyStr {
  import opened Wrappers

  /** `s.split(sep)`: every occurrence of `sep` separates two pieces; empty pieces are kept. */
  function Split(s: string, sep: char): (parts: seq<string>)
    ensures |parts| >= 1
    ensures forall i | 0 <= i < |parts| :: sep !in parts[i]
  {
    if |s| == 0 then [""]
    else
      var rest := Split(s[1..], sep);
      if s[0] == sep then [""] + rest
      else [[s[0]] + rest[0]] + rest[1..]
  }

  /** `sep.join(parts)`. */
  function Join(sep: string, parts: seq<string>): string
  {
    if |parts| == 0 then ""
    else if |parts| == 1 then parts[0]
    else parts[0] + sep + Join(sep, parts[1..])
  }

  /** Joining the pieces of a split with the separator gives back the original string. */
  lemma {:induction false} JoinSplit(s: string, sep: char)
    ensures Join([sep], Split(s, sep)) == s
  {
    if |s| > 0 {
      var rest := Split(s[1..], sep);
      JoinSplit(s[1..], sep);
      if s[0] == sep {
        assert ([""] + rest)[1..] == rest;
      } else {
        var parts := [[s[0]] + rest[0]] + rest[1..];
        assert parts[1..] == rest[1..];
        if |rest| > 1 {
          assert Join([sep], rest) == rest[0] + [sep] + Join([sep], rest[1..]);
        }
      }
    }
  }

  /** Splitting a string joined from separator-free pieces gives back the pieces. */
  lemma {:induction false} SplitJoin(parts: seq<string>, sep: char)
    requires |parts| >= 1
    requires forall i | 0 <= i < |parts| :: sep !in parts[i]
    ensures Split(Join([sep], parts), sep) == parts
    decreases |parts|
  {
    if |parts| == 1 {
      SplitNoSep(parts[0], sep);
    } else {
      var tail := Join([sep], parts[1..]);
      SplitJoin(parts[1..], sep);
      SplitSepFirst(tail, sep);
      SplitPrefix(parts[0], [sep] + tail, sep);
      assert Split([sep] + tail, sep)[0] == "";
      assert Split([sep] + tail, sep)[1..] == parts[1..];
      assert parts[0] + "" == parts[0];
      assert parts[0] + [sep] + tail == parts[0] + ([sep] + tail);
      assert [parts[0]] + parts[1..] == parts;
    }
  }

  lemma SplitSepFirst(t: string, sep: char)
    ensures Split([sep] + t, sep) == [""] + Split(t, sep)
  {
    assert ([sep] + t)[0] == sep;
    assert ([sep] + t)[1..] == t;
  }

  lemma {:induction false} SplitNoSep(p: string, sep: char)
    requires sep !in p
    ensures Split(p, sep) == [p]
    decreases |p|
  {
    if |p| > 0 {
      SplitNoSep(p[1..], sep);
      assert [p[0]] + p[1..] == p;
    }
  }

  /** A separator-free prefix is glued onto the first piece of the split of what follows. */
  lemma {:induction false} SplitPrefix(p: string, t: string, sep: char)
    requires sep !in p
    ensures Split(p + t, sep) == [p + Split(t, sep)[0]] + Split(t, sep)[1..]
    decreases |p|
  {
    if |p| > 0 {
      assert (p + t)[0] == p[0];
      assert (p + t)[1..] == p[1..] + t;
      SplitPrefix(p[1..], t, sep);
      assert [p[0]] + (p[1..] + Split(t, sep)[0]) == p + Split(t, sep)[0];
    } else {
      var parts := Split(t, sep);
      assert p + t == t;
      assert p + parts[0] == parts[0];
      assert [parts[0]] + parts[1..] == parts;
    }
  }

  /** The split of `s` when its first separator is at position `k`. */
  lemma {:induction false} SplitAtFirst(s: string, sep: char, k: nat)
    requires k < |s| && s[k] == sep && sep !in s[..k]
    ensures Split(s, sep) == [s[..k]] + Split(s[k + 1..], sep)
  {
    assert s == s[..k] + ([sep] + s[k + 1..]);
    SplitPrefix(s[..k], [sep] + s[k + 1..], sep);
    SplitSepFirst(s[k + 1..], sep);
    assert s[..k] + "" == s[..k];
  }

  /** Characters Python's `int()` ignores around a number (the ASCII ones). */
  const Whitespace: set<char> := {' ', '\t', '\n', '\r', '\U{0B}', '\U{0C}', '\U{1C}', '\U{1D}', '\U{1E}', '\U{1F}'}

  /** Every character of `t` is one of `chars`. */
  predicate AllIn(t: string, chars: set<char>) {
    forall i | 0 <= i < |t| :: t[i] in chars
  }

  /** `s.lstrip(chars)`. */
  function StripLeft(s: string, chars: set<char>): string
  {
    if |s| > 0 && s[0] in chars then StripLeft(s[1..], chars) else s
  }

  /** `s.rstrip(chars)`. */
  function StripRight(s: string, chars: set<char>): string
  {
    if |s| > 0 && s[|s| - 1] in chars then StripRight(s[..|s| - 1], chars) else s
  }

  /** `lstrip` keeps a suffix that does not start with one of `chars` and cuts off only `chars`. */
  lemma {:induction false} StripLeftSpec(s: string, chars: set<char>)
    ensures var r := StripLeft(s, chars);
      && |r| <= |s| && s[|s| - |r|..] == r
      && AllIn(s[..|s| - |r|], chars)
      && (|r| > 0 ==> r[0] !in chars)
    decreases |s|
  {
    if |s| > 0 && s[0] in chars {
      var r := StripLeft(s[1..], chars);
      StripLeftSpec(s[1..], chars);
      assert s[1..][|s| - 1 - |r|..] == s[|s| - |r|..];
      assert forall i | 1 <= i < |s| - |r| :: s[i] == s[1..][..|s| - 1 - |r|][i - 1];
    }
  }

  /** `rstrip` keeps a prefix that does not end with one of `chars` and cuts off only `chars`. */
  lemma {:induction false} StripRightSpec(s: string, chars: set<char>)
    ensures var r := StripRight(s, chars);
      && |r| <= |s| && s[..|r|] == r
      && AllIn(s[|r|..], chars)
      && (|r| > 0 ==> r[|r| - 1] !in chars)
    decreases |s|
  {
    if |s| > 0 && s[|s| - 1] in chars {
      var init := s[..|s| - 1];
      var r := StripRight(init, chars);
      StripRightSpec(init, chars);
      assert init[..|r|] == s[..|r|];
      assert forall i | |r| <= i < |s| - 1 :: s[i] == init[|r|..][i - |r|];
    }
  }

  /** Where the part kept by `s.strip(chars)` starts. */
  function StripStart(s: string, chars: set<char>): nat
  {
    StripLeftSpec(s, chars);
    |s| - |StripLeft(s, chars)|
  }

  /** `s.strip(chars)`. */
  function Strip(s: string, chars: set<char>): string
  {
    StripRight(StripLeft(s, chars), chars)
  }

  /**
   * `s.strip(chars)` is the middle part of `s` that neither starts nor ends
   * with one of `chars`; everything cut off on either side is made of `chars`.
   */
  lemma StripSpec(s: string, chars: set<char>)
    ensures var r := Strip(s, chars);
      var i := StripStart(s, chars);
      && i + |r| <= |s|
      && s[i..i + |r|] == r
      && AllIn(s[..i], chars)
      && AllIn(s[i + |r|..], chars)
      && (|r| > 0 ==> r[0] !in chars && r[|r| - 1] !in chars)
  {
    var left := StripLeft(s, chars);
    var r := StripRight(left, chars);
    var i := |s| - |left|;
    StripLeftSpec(s, chars);
    StripRightSpec(left, chars);
    Infix(s, i, left, r);
  }

  /** A prefix `r` of the suffix `left == s[i..]` sits at `i`, and what follows it in `left` follows it in `s`. */
  lemma Infix(s: string, i: nat, left: string, r: string)
    requires i <= |s| && s[i..] == left && |r| <= |left| && left[..|r|] == r
    ensures i + |r| <= |s| && s[i..i + |r|] == r && s[i + |r|..] == left[|r|..]
    ensures |r| > 0 ==> r[0] == left[0]
  {
    assert forall k | 0 <= k < |r| :: s[i..i + |r|][k] == left[k];
  }

  /** Stripping a string that neither starts nor ends with one of `chars` leaves it unchanged. */
  lemma StripUnchanged(s: string, chars: set<char>)
    requires |s| > 0 ==> s[0] !in chars && s[|s| - 1] !in chars
    ensures Strip(s, chars) == s
  {
    assert StripLeft(s, chars) == s;
    assert StripRight(s, chars) == s;
  }

  /** Stripping twice is stripping once. */
  lemma StripIdempotent(s: string, chars: set<char>)
    ensures Strip(Strip(s, chars), chars) == Strip(s, chars)
  {
    StripSpec(s, chars);
    StripUnchanged(Strip(s, chars), chars);
  }

  predicate IsDigit(c: char) {
    '0' <= c <= '9'
  }

  /** `s.isnumeric()` for ASCII text: non-empty and made of digits only. */
  predicate IsNumeric(s: string) {
    |s| > 0 && forall i | 0 <= i < |s| :: IsDigit(s[i])
  }

  /** The value of a string of decimal digits. */
  function DigitsValue(s: string): nat
    requires forall i | 0 <= i < |s| :: IsDigit(s[i])
  {
    if |s| == 0 then 0
    else
      var last := s[|s| - 1];
      assert IsDigit(last);
      10 * DigitsValue(s[..|s| - 1]) + (last as int - '0' as int)
  }

  /**
   * `int(s)` for a string: surrounding whitespace is ignored, then an optional
   * sign and at least one digit; anything else raises (None here).
   */
  function ParseInt(s: string): Option<int>
  {
    ParseStripped(Strip(s, Whitespace))
  }

  /** `int(s)` once the surrounding whitespace is gone. */
  function ParseStripped(t: string): Option<int>
  {
    if |t| > 0 && (t[0] == '-' || t[0] == '+') then
      if IsNumeric(t[1..]) then
        var magnitude: int := DigitsValue(t[1..]);
        Some(if t[0] == '-' then -magnitude else magnitude)
      else None
    else if IsNumeric(t) then Some(DigitsValue(t))
    else None
  }

  /** `str(n)` for a natural number. */
  function ShowNat(n: nat): (s: string)
    ensures IsNumeric(s)
  {
    var d := ['0' + (n % 10) as char];
    if n < 10 then d else ShowNat(n / 10) + d
  }

  /** `str(n)` for any integer. */
  function ShowInt(n: int): string
  {
    if n < 0 then "-" + ShowNat(-n) else ShowNat(n)
  }

  lemma {:induction false} DigitsValueShowNat(n: nat)
    ensures DigitsValue(ShowNat(n)) == n
  {
    if n >= 10 {
      DigitsValueShowNat(n / 10);
      var s := ShowNat(n);
      assert s[..|s| - 1] == ShowNat(n / 10);
    }
  }

  /** `int(str(n)) == n`. */
  lemma ParseShowInt(n: int)
    ensures ParseInt(ShowInt(n)) == Some(n)
  {
    if n < 0 {
      ParseShowNegative(n);
    } else {
      ParseShowNat(n);
    }
  }

  lemma ParseShowNat(n: nat)
    ensures ParseInt(ShowNat(n)) == Some(n as int)
  {
    DigitsValueShowNat(n);
    ParseDigits(ShowNat(n));
  }

  lemma ParseShowNegative(n: int)
    requires n < 0
    ensures ParseInt(ShowInt(n)) == Some(n)
  {
    var digits := ShowNat(-n);
    DigitsValueShowNat(-n);
    ParseNegative(digits);
    assert ShowInt(n) == "-" + digits;
  }

  /** A digit or a sign is not whitespace. */
  lemma NotWhitespace(c: char)
    requires IsDigit(c) || c == '-' || c == '+'
    ensures c !in Whitespace
  {
  }

  /** `int()` of text that has no surrounding whitespace parses that text as it is. */
  lemma ParseUnstripped(s: string)
    requires |s| > 0 && s[0] !in Whitespace && s[|s| - 1] !in Whitespace
    ensures ParseInt(s) == ParseStripped(s)
  {
    StripUnchanged(s, Whitespace);
  }

  lemma ParseDigits(digits: string)
    requires IsNumeric(digits)
    ensures ParseInt(digits) == Some(DigitsValue(digits))
  {
    NotWhitespace(digits[0]);
    NotWhitespace(digits[|digits| - 1]);
    ParseUnstripped(digits);
  }

  lemma ParseNegative(digits: string)
    requires IsNumeric(digits)
    ensures ParseInt("-" + digits) == Some(-(DigitsValue(digits) as int))
  {
    var s := "-" + digits;
    NotWhitespace(digits[|digits| - 1]);
    NotWhitespace('-');
    assert s[|s| - 1] == digits[|digits| - 1];
    ParseUnstripped(s);
    assert s[1..] == digits;
  }
}
