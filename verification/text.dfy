/**
 The string helpers of the desktop app: truncation, whitespace clean-up,
 hex-colour validation and the two number validators. Strings are Python
 `str` values, modelled as sequences of code points; whitespace is what
 Python's `str.isspace` accepts.
 */
module Text {
  import opened Optional

  // ===== Whitespace =====

  /** The characters Python's `str.split()` and `str.strip()` treat as
      whitespace. */
  predicate IsSpace(c: char) {
    || ('\t' <= c <= '\r')
    || ('\U{1C}' <= c <= ' ')
    || c == '\U{85}' || c == '\U{A0}' || c == '\U{1680}'
    || ('\U{2000}' <= c <= '\U{200A}')
    || c == '\U{2028}' || c == '\U{2029}' || c == '\U{202F}' || c == '\U{205F}' || c == '\U{3000}'
  }

  predicate NoSpace(s: string) {
    forall i :: 0 <= i < |s| ==> !IsSpace(s[i])
  }

  /** A word as `split()` returns it: non-empty, without whitespace. */
  predicate IsWord(w: string) {
    |w| > 0 && NoSpace(w)
  }

  /** The longest prefix of `s` without whitespace. */
  function FirstWord(s: string): (w: string)
    ensures w <= s && NoSpace(w)
    ensures |w| < |s| ==> IsSpace(s[|w|])
  {
    if |s| == 0 || IsSpace(s[0]) then ""
    else
      var w := [s[0]] + FirstWord(s[1..]);
      assert w == [s[0]] + FirstWord(s[1..]);
      w
  }

  /** `str.split()` with no separator: the maximal runs of non-whitespace,
      in order. */
  function Split(s: string): (ws: seq<string>)
    ensures forall i :: 0 <= i < |ws| ==> IsWord(ws[i])
    decreases |s|
  {
    if |s| == 0 then []
    else if IsSpace(s[0]) then Split(s[1..])
    else
      var w := FirstWord(s);
      [w] + Split(s[|w|..])
  }

  /** `' '.join(ws)`. */
  function Join(ws: seq<string>): string {
    if |ws| == 0 then ""
    else if |ws| == 1 then ws[0]
    else ws[0] + " " + Join(ws[1..])
  }

  /** `limpiar_texto`: collapses every run of whitespace into one space and
      drops it at both ends. */
  function Clean(s: string): (r: string)
    ensures |r| > 0 ==> !IsSpace(r[0]) && !IsSpace(r[|r| - 1])
    ensures forall i :: 0 <= i < |r| && IsSpace(r[i]) ==> r[i] == ' ' && 0 < i < |r| - 1 && !IsSpace(r[i - 1]) && !IsSpace(r[i + 1])
  {
    JoinShape(Split(s));
    Join(Split(s))
  }

  /** The joined words start and end with a word character, and every
      whitespace character is a single space between two words. */
  lemma {:induction false} JoinShape(ws: seq<string>)
    requires forall i :: 0 <= i < |ws| ==> IsWord(ws[i])
    ensures var r := Join(ws);
      && (|r| > 0 ==> !IsSpace(r[0]) && !IsSpace(r[|r| - 1]))
      && (forall i :: 0 <= i < |r| && IsSpace(r[i]) ==> r[i] == ' ' && 0 < i < |r| - 1 && !IsSpace(r[i - 1]) && !IsSpace(r[i + 1]))
  {
    if |ws| >= 2 {
      JoinShape(ws[1..]);
      var w, rest := ws[0], Join(ws[1..]);
      var r := Join(ws);
      assert r == w + " " + rest;
      assert |rest| > 0 by {
        assert IsWord(ws[1..][0]);
        JoinStartsWith(ws[1..]);
      }
      assert forall i :: 0 <= i < |w| ==> r[i] == w[i] && !IsSpace(r[i]);
      forall i | |w| <= i < |r| && IsSpace(r[i])
        ensures r[i] == ' ' && 0 < i < |r| - 1 && !IsSpace(r[i - 1]) && !IsSpace(r[i + 1])
      {
        if i == |w| {
          assert r[i - 1] == w[|w| - 1];
          assert r[i + 1] == rest[0];
        } else {
          assert r[i] == rest[i - |w| - 1];
          if i - 1 > |w| {
            assert r[i - 1] == rest[i - 1 - |w| - 1];
          }
          assert r[i + 1] == rest[i + 1 - |w| - 1];
        }
      }
    }
  }

  /** A join of words begins with the first word. */
  lemma JoinStartsWith(ws: seq<string>)
    requires |ws| > 0
    ensures ws[0] <= Join(ws)
  {
  }

  /** The first word of a word followed by whitespace, or by nothing, is
      that word. */
  lemma FirstWordOf(w: string, tail: string)
    requires IsWord(w)
    requires |tail| == 0 || IsSpace(tail[0])
    ensures FirstWord(w + tail) == w
    decreases |w|
  {
    var s := w + tail;
    if |w| > 1 {
      assert s[1..] == w[1..] + tail;
      FirstWordOf(w[1..], tail);
    } else {
      assert s[1..] == tail;
    }
  }

  /** A word followed by whitespace, or by nothing, splits into that word
      and the split of what follows. */
  lemma SplitAfterWord(w: string, tail: string)
    requires IsWord(w)
    requires |tail| == 0 || IsSpace(tail[0])
    ensures Split(w + tail) == [w] + Split(tail)
  {
    var s := w + tail;
    FirstWordOf(w, tail);
    assert s[|w|..] == tail;
  }

  /** Text after the first word does not change it when it starts with
      whitespace, or when there is none. */
  lemma {:induction false} FirstWordExtend(a: string, t: string)
    requires |t| == 0 || IsSpace(t[0])
    ensures FirstWord(a + t) == FirstWord(a)
    decreases |a|
  {
    var s := a + t;
    if |a| == 0 {
      assert s == t;
    } else if !IsSpace(a[0]) {
      assert s[1..] == a[1..] + t;
      FirstWordExtend(a[1..], t);
    }
  }

  /** Whitespace separates: splitting at a whitespace character splits the
      two sides apart and loses nothing on either. With `Split("") == []`
      and `SplitAfterWord(w, "")`, this fixes `Split` on every input. */
  lemma {:induction false} SplitAtSpace(a: string, c: char, b: string)
    requires IsSpace(c)
    ensures Split(a + [c] + b) == Split(a) + Split(b)
    decreases |a|
  {
    var s := a + [c] + b;
    if |a| == 0 {
      assert s[1..] == b;
    } else if IsSpace(a[0]) {
      assert s[1..] == a[1..] + [c] + b;
      SplitAtSpace(a[1..], c, b);
    } else {
      var w := FirstWord(a);
      assert s == a + ([c] + b);
      FirstWordExtend(a, [c] + b);
      assert s[|w|..] == a[|w|..] + [c] + b;
      SplitAtSpace(a[|w|..], c, b);
    }
  }

  /** The characters of a sequence of strings, one after the other. */
  function Concat(ws: seq<string>): string {
    if |ws| == 0 then "" else ws[0] + Concat(ws[1..])
  }

  /** The non-whitespace characters of `s`, in order. */
  function NonSpace(s: string): string {
    if |s| == 0 then ""
    else if IsSpace(s[0]) then NonSpace(s[1..])
    else [s[0]] + NonSpace(s[1..])
  }

  lemma {:induction false} NonSpaceAppend(a: string, b: string)
    ensures NonSpace(a + b) == NonSpace(a) + NonSpace(b)
    decreases |a|
  {
    if |a| > 0 {
      assert (a + b)[1..] == a[1..] + b;
      NonSpaceAppend(a[1..], b);
    } else {
      assert a + b == b;
    }
  }

  lemma {:induction false} NonSpaceOfWord(w: string)
    requires NoSpace(w)
    ensures NonSpace(w) == w
    decreases |w|
  {
    if |w| > 0 {
      NonSpaceOfWord(w[1..]);
      assert w == [w[0]] + w[1..];
    }
  }

  /** The words of `s` hold exactly its non-whitespace characters, in
      order: splitting drops whitespace and nothing else. */
  lemma {:induction false} SplitKeepsCharacters(s: string)
    ensures Concat(Split(s)) == NonSpace(s)
    decreases |s|
  {
    if |s| > 0 {
      if IsSpace(s[0]) {
        SplitKeepsCharacters(s[1..]);
      } else {
        var w := FirstWord(s);
        var rest := s[|w|..];
        assert s == w + rest;
        SplitKeepsCharacters(rest);
        NonSpaceAppend(w, rest);
        NonSpaceOfWord(w);
        assert ([w] + Split(rest))[1..] == Split(rest);
      }
    }
  }

  /** Splitting words joined by single spaces gives the words back. */
  lemma {:induction false} SplitJoin(ws: seq<string>)
    requires forall i :: 0 <= i < |ws| ==> IsWord(ws[i])
    ensures Split(Join(ws)) == ws
  {
    if |ws| == 1 {
      SplitAfterWord(ws[0], "");
      assert ws[0] + "" == ws[0];
    } else if |ws| >= 2 {
      var w, rest := ws[0], Join(ws[1..]);
      assert Join(ws) == w + (" " + rest);
      SplitAfterWord(w, " " + rest);
      assert (" " + rest)[1..] == rest;
      assert Split(" " + rest) == Split(rest);
      SplitJoin(ws[1..]);
      assert ws == [w] + ws[1..];
    }
  }

  /** Cleaning keeps exactly the words of the text, in order. */
  lemma CleanKeepsWords(s: string)
    ensures Split(Clean(s)) == Split(s)
  {
    SplitJoin(Split(s));
  }

  /** Cleaning keeps every non-whitespace character of the text, in order,
      and adds none. */
  lemma CleanKeepsCharacters(s: string)
    ensures NonSpace(Clean(s)) == NonSpace(s)
  {
    CleanKeepsWords(s);
    SplitKeepsCharacters(Clean(s));
    SplitKeepsCharacters(s);
  }

  /** Cleaning twice is cleaning once. */
  lemma CleanIdempotent(s: string)
    ensures Clean(Clean(s)) == Clean(s)
  {
    CleanKeepsWords(s);
  }

  // ===== Truncation =====

  /** `s[:k]` for any integer `k`: a negative bound counts from the end, and
      a bound past either end is clamped. */
  function PrefixTo(s: string, k: int): (r: string)
    ensures r <= s
    ensures 0 <= k ==> |r| == if k < |s| then k else |s|
    ensures k < 0 ==> |r| == if |s| + k < 0 then 0 else |s| + k
  {
    if k >= 0 then (if k < |s| then s[..k] else s)
    else if |s| + k < 0 then ""
    else s[..|s| + k]
  }

  const Ellipsis: string := "..."

  /** `truncar_texto`: text within the limit is returned as it is; longer
      text is cut to `maxLength - 3` characters and given an ellipsis. */
  function Truncate(text: string, maxLength: int): (r: string)
    ensures |text| <= maxLength ==> r == text
    ensures |text| > maxLength ==>
      && |r| >= 3 && r[|r| - 3..] == Ellipsis
      && r[..|r| - 3] <= text
    ensures |text| > maxLength >= 3 ==> |r| == maxLength
    ensures |text| > maxLength && maxLength < 3 ==>
      |r| == 3 + (if |text| + maxLength - 3 > 0 then |text| + maxLength - 3 else 0)
  {
    if |text| <= maxLength then text
    else
      var r := PrefixTo(text, maxLength - 3) + Ellipsis;
      assert r[..|r| - 3] == PrefixTo(text, maxLength - 3);
      r
  }

  /** With a limit of at least 3, a truncated text fits the limit, so
      truncating it again changes nothing. */
  lemma TruncateIdempotent(text: string, maxLength: int)
    requires maxLength >= 3
    ensures Truncate(Truncate(text, maxLength), maxLength) == Truncate(text, maxLength)
    ensures |Truncate(text, maxLength)| <= maxLength
  {
  }

  /** With a limit below 3 the result can exceed the limit: the negative
      slice bound keeps all but the last characters. */
  lemma TruncateBelowThree()
    ensures Truncate("abcdef", 1) == "abcd..."
    ensures |Truncate("abcdef", 1)| > 1
  {
    assert PrefixTo("abcdef", -2) == "abcd";
  }

  // ===== Hex colours =====

  predicate IsHexDigit(c: char) {
    ('0' <= c <= '9') || ('A' <= c <= 'F') || ('a' <= c <= 'f')
  }

  /** The characters of the class `[0-9A-Fa-f]`. */
  const HexDigits: string := "0123456789ABCDEFabcdef"

  /** The three ranges of `IsHexDigit` are exactly the class's characters. */
  lemma HexDigitMember(c: char)
    ensures c in HexDigits <==> IsHexDigit(c)
  {
    if '0' <= c <= '9' {
      assert HexDigits[c as int - '0' as int] == c;
    } else if 'A' <= c <= 'F' {
      assert HexDigits[10 + c as int - 'A' as int] == c;
    } else if 'a' <= c <= 'f' {
      assert HexDigits[16 + c as int - 'a' as int] == c;
    }
  }

  /** `#` and six hex digits, and nothing else. */
  function ValidColor(s: string): (ok: bool)
    ensures ok <==> |s| == 7 && s[0] == '#' && forall i :: 1 <= i < 7 ==> s[i] in HexDigits
  {
    if |s| == 7 && s[0] == '#' then
      HexDigitsMember(s[1..]);
      forall i :: 1 <= i < 7 ==> IsHexDigit(s[i])
    else false
  }

  lemma HexDigitsMember(t: string)
    ensures (forall i :: 0 <= i < |t| ==> t[i] in HexDigits) <==> (forall i :: 0 <= i < |t| ==> IsHexDigit(t[i]))
  {
    forall i | 0 <= i < |t| {
      HexDigitMember(t[i]);
    }
  }

  /** `validar_color_hex` as written: `re.match` with `^#[0-9A-Fa-f]{6}$`.
      Python's `$` also matches just before a final line feed, so a colour
      followed by one `"\n"` is accepted too. */
  function ValidColorAsWritten(s: string): (ok: bool)
    ensures ok <==> ValidColor(s) || (|s| == 8 && s[7] == '\n' && ValidColor(s[..7]))
  {
    |s| >= 7 && s[0] == '#' && (forall i :: 1 <= i < 7 ==> IsHexDigit(s[i]))
    && (|s| == 7 || (|s| == 8 && s[7] == '\n'))
  }

  /** The source accepts a colour with a trailing line feed, which is not a
      hex colour. */
  lemma TrailingNewlineAccepted()
    ensures ValidColorAsWritten("#3B82F6\n")
    ensures !ValidColor("#3B82F6\n")
  {
    assert "#3B82F6\n"[..7] == "#3B82F6";
  }

  // ===== Numbers =====

  predicate IsDigit(c: char) {
    '0' <= c <= '9'
  }

  function DigitValue(c: char): nat
    requires IsDigit(c)
  {
    c as int - '0' as int
  }

  function DigitChar(d: nat): (c: char)
    requires d < 10
    ensures IsDigit(c) && DigitValue(c) == d
  {
    ('0' as int + d) as char
  }

  /** The whitespace `int()` and `float()` skip around a number: the ASCII
      characters space, `\t`, `\n`, `\v`, `\f` and `\r`, and every non-ASCII
      whitespace character. The ASCII separators U+001C to U+001F, which
      `str.split()` treats as whitespace, are kept and make the parse fail. */
  predicate IsPad(c: char) {
    IsSpace(c) && !('\U{1C}' <= c <= '\U{1F}')
  }

  /** `s` with leading padding removed. */
  function StripStart(s: string): (r: string)
    ensures |r| <= |s| && r == s[|s| - |r|..]
    ensures |r| > 0 ==> !IsPad(r[0])
    ensures forall i :: 0 <= i < |s| - |r| ==> IsPad(s[i])
  {
    if |s| > 0 && IsPad(s[0]) then StripStart(s[1..]) else s
  }

  /** `s` with trailing padding removed. */
  function StripEnd(s: string): (r: string)
    ensures r <= s
    ensures |r| > 0 ==> !IsPad(r[|r| - 1])
    ensures forall i :: |r| <= i < |s| ==> IsPad(s[i])
  {
    if |s| > 0 && IsPad(s[|s| - 1]) then StripEnd(s[..|s| - 1]) else s
  }

  /** The padding `int()` and `float()` skip at both ends of their argument. */
  function Strip(s: string): string {
    StripEnd(StripStart(s))
  }

  /** Text without padding at either end is its own strip. */
  lemma StripTrimmed(s: string)
    requires |s| > 0 && !IsPad(s[0]) && !IsPad(s[|s| - 1])
    ensures Strip(s) == s
  {
  }

  /** A run of decimal digits with single underscores between them, the
      grouping `int()` and `float()` accept. */
  predicate IsDigitGroup(s: string) {
    && |s| > 0 && IsDigit(s[0]) && IsDigit(s[|s| - 1])
    && (forall i :: 0 <= i < |s| ==> IsDigit(s[i]) || s[i] == '_')
    && (forall i :: 0 <= i < |s| - 1 ==> s[i] == '_' ==> s[i + 1] != '_')
  }

  predicate DigitsOrUnderscores(s: string) {
    forall i :: 0 <= i < |s| ==> IsDigit(s[i]) || s[i] == '_'
  }

  /** The value of the digits of `s`, underscores skipped. */
  function GroupValue(s: string): nat
    requires DigitsOrUnderscores(s)
  {
    if |s| == 0 then 0
    else if s[|s| - 1] == '_' then GroupValue(s[..|s| - 1])
    else GroupValue(s[..|s| - 1]) * 10 + DigitValue(s[|s| - 1])
  }

  /** How many digits `s` has, underscores skipped. */
  function DigitCount(s: string): nat {
    if |s| == 0 then 0
    else DigitCount(s[..|s| - 1]) + (if s[|s| - 1] == '_' then 0 else 1)
  }

  /** An optional leading `+` or `-`: whether it was `-`, and the rest. */
  function SplitSign(t: string): (r: (bool, string))
    ensures r.1 <= t || (|t| > 0 && r.1 == t[1..])
    ensures |t| > 0 && (t[0] == '+' || t[0] == '-') ==> r == (t[0] == '-', t[1..])
    ensures |t| == 0 || (t[0] != '+' && t[0] != '-') ==> r == (false, t)
  {
    if |t| > 0 && (t[0] == '+' || t[0] == '-') then (t[0] == '-', t[1..]) else (false, t)
  }

  /** `int(s)` over decimal text: surrounding whitespace, an optional sign,
      then a digit group. Anything else raises, modelled as `None`. */
  function ParseInt(s: string): (r: Option<int>)
    ensures r.Some? <==> IsDigitGroup(SplitSign(Strip(s)).1)
  {
    ParseSignedDigits(Strip(s))
  }

  /** An optional sign and a digit group, read as an integer. */
  function ParseSignedDigits(t: string): (r: Option<int>)
    ensures r.Some? <==> IsDigitGroup(SplitSign(t).1)
  {
    var (negative, body) := SplitSign(t);
    if !IsDigitGroup(body) then None
    else Some(if negative then -(GroupValue(body) as int) else GroupValue(body))
  }

  /** `validar_entero_no_negativo`: the text parses as an integer that is
      not negative. */
  function ValidNonNegativeInt(s: string): (ok: bool)
    ensures ok <==> ParseInt(s).Some? && ParseInt(s).value >= 0
  {
    match ParseInt(s)
    case None => false
    case Some(n) => n >= 0
  }

  /** The decimal digits of a natural number, most significant first. */
  function NatString(n: nat): (s: string)
    ensures |s| > 0 && IsDigitGroup(s)
    ensures forall i :: 0 <= i < |s| ==> IsDigit(s[i])
  {
    if n < 10 then [DigitChar(n)] else NatString(n / 10) + [DigitChar(n % 10)]
  }

  /** The digits of `n`, after a minus sign when `negative`. */
  function SignedString(negative: bool, n: nat): string {
    if negative then "-" + NatString(n) else NatString(n)
  }

  /** The decimal form of an integer, as `str(n)` writes it. */
  function Show(n: int): string {
    if n < 0 then SignedString(true, -n) else SignedString(false, n)
  }

  lemma {:induction false} NatStringValue(n: nat)
    ensures GroupValue(NatString(n)) == n
  {
    if n >= 10 {
      var s := NatString(n);
      NatStringValue(n / 10);
      assert s[..|s| - 1] == NatString(n / 10);
    }
  }

  /** Sign and digits: starts with `-` or a digit, ends with a digit, and
      the sign split gives the digits back. */
  lemma SignedShape(negative: bool, n: nat)
    ensures var s := SignedString(negative, n);
      && |s| > 0 && !IsSpace(s[0]) && !IsSpace(s[|s| - 1])
      && SplitSign(s) == (negative, NatString(n))
  {
    var digits := NatString(n);
    var s := SignedString(negative, n);
    assert s[|s| - 1] == digits[|digits| - 1];
    if negative {
      assert s[1..] == digits;
    } else {
      assert s == digits;
      assert IsDigit(s[0]);
      assert SplitSign(s) == (false, s);
    }
  }

  /** `int()` reads an optional minus sign and the digits of `n` as `n` or
      `-n`; in particular `int("-0")` is 0. */
  lemma ParseSigned(negative: bool, n: nat)
    ensures ParseInt(SignedString(negative, n)) == Some(if negative then -(n as int) else n)
  {
    var s := SignedString(negative, n);
    SignedShape(negative, n);
    StripTrimmed(s);
    ReadSignedDigits(s, negative, NatString(n));
    NatStringValue(n);
  }

  /** Once the sign is split off a digit group, the group's value is read
      with that sign. */
  lemma ReadSignedDigits(t: string, negative: bool, digits: string)
    requires SplitSign(t) == (negative, digits) && IsDigitGroup(digits)
    ensures ParseSignedDigits(t) == Some(if negative then -(GroupValue(digits) as int) else GroupValue(digits))
  {
  }

  /** `int(str(n)) == n`: every integer survives printing and parsing. */
  lemma ParseShow(n: int)
    ensures ParseInt(Show(n)) == Some(n)
  {
    var m: nat := if n < 0 then -n else n;
    assert Show(n) == SignedString(n < 0, m);
    ParseSigned(n < 0, m);
  }

  /** The validator accepts exactly the printed non-negative integers among
      printed integers. */
  lemma ValidNonNegativeIntShow(n: int)
    ensures ValidNonNegativeInt(Show(n)) <==> n >= 0
  {
    ParseShow(n);
  }

  /** A minus sign before a run of zeros, such as `-0` or `-00`, still
      gives a non-negative number. */
  lemma MinusZeroIsNonNegative(zeros: string)
    requires IsDigitGroup(zeros) && GroupValue(zeros) == 0
    ensures ValidNonNegativeInt("-" + zeros)
  {
    var s := "-" + zeros;
    SignedEnds("-", zeros);
    StripTrimmed(s);
    SplitSignOf("-", zeros);
    ReadSignedDigits(s, true, zeros);
  }

  predicate AllPad(s: string) {
    forall i :: 0 <= i < |s| ==> IsPad(s[i])
  }

  lemma {:induction false} StripStartPadding(pad: string, s: string)
    requires AllPad(pad) && |s| > 0 && !IsPad(s[0])
    ensures StripStart(pad + s) == s
  {
    if |pad| > 0 {
      assert (pad + s)[1..] == pad[1..] + s;
      StripStartPadding(pad[1..], s);
    } else {
      assert pad + s == s;
    }
  }

  lemma {:induction false} StripEndPadding(s: string, pad: string)
    requires AllPad(pad) && |s| > 0 && !IsPad(s[|s| - 1])
    ensures StripEnd(s + pad) == s
  {
    if |pad| > 0 {
      assert (s + pad)[..|s + pad| - 1] == s + pad[..|pad| - 1];
      StripEndPadding(s, pad[..|pad| - 1]);
    } else {
      assert s + pad == s;
    }
  }

  /** Padding around a number does not change what `int()` reads. */
  lemma ParseIntIgnoresPadding(before: string, s: string, after: string)
    requires AllPad(before) && AllPad(after)
    requires |s| > 0 && !IsPad(s[0]) && !IsPad(s[|s| - 1])
    ensures ParseInt(before + s + after) == ParseInt(s)
  {
    assert before + s + after == before + (s + after);
    StripStartPadding(before, s + after);
    StripEndPadding(s, after);
    StripTrimmed(s);
    assert Strip(before + s + after) == Strip(s);
  }

  // ===== Floating-point text =====

  /** What `float()` can return: a finite value, an infinity, or NaN. */
  datatype Float = Finite(x: real) | Infinity(negative: bool) | NaN

  function LowerChar(c: char): char {
    if 'A' <= c <= 'Z' then (c as int - 'A' as int + 'a' as int) as char else c
  }

  /** `inf` in any ASCII case, as `float()` compares it. */
  predicate IsInf(s: string) {
    |s| == 3 && LowerChar(s[0]) == 'i' && LowerChar(s[1]) == 'n' && LowerChar(s[2]) == 'f'
  }

  /** `infinity` in any ASCII case. */
  predicate IsInfinity(s: string) {
    && |s| == 8 && LowerChar(s[0]) == 'i' && LowerChar(s[1]) == 'n' && LowerChar(s[2]) == 'f'
    && LowerChar(s[3]) == 'i' && LowerChar(s[4]) == 'n' && LowerChar(s[5]) == 'i'
    && LowerChar(s[6]) == 't' && LowerChar(s[7]) == 'y'
  }

  /** `nan` in any ASCII case. */
  predicate IsNaN(s: string) {
    |s| == 3 && LowerChar(s[0]) == 'n' && LowerChar(s[1]) == 'a' && LowerChar(s[2]) == 'n'
  }

  /** The index of the first character of `s` that is one of `chars`, or
      `|s|` when there is none. */
  function Find(s: string, chars: string): (i: nat)
    ensures i <= |s|
    ensures forall j :: 0 <= j < i ==> s[j] !in chars
    ensures i < |s| ==> s[i] in chars
  {
    if |s| == 0 || s[0] in chars then 0 else 1 + Find(s[1..], chars)
  }

  function Pow10(n: nat): (r: real)
    ensures r >= 1.0
  {
    if n == 0 then 1.0 else 10.0 * Pow10(n - 1)
  }

  /** `x` times ten to the power `e`. */
  function Scale(x: real, e: int): real {
    if e >= 0 then x * Pow10(e) else x / Pow10(-e)
  }

  /** A decimal without sign: digits, an optional point and fraction (one
      side of the point may be empty, not both), and an optional exponent
      `e` or `E` with an optional sign. Its exact value; rounding to the
      nearest double is not modelled. */
  function ParseDecimal(b: string): (r: Option<real>)
    ensures r.Some? ==> r.value >= 0.0
  {
    var e := Find(b, "eE");
    var mantissa := b[..e];
    var exponent := if e == |b| then Some(0) else ParseSignedDigits(b[e + 1..]);
    var d := Find(mantissa, ".");
    var whole := mantissa[..d];
    var fraction := if d < |mantissa| then mantissa[d + 1..] else "";
    if exponent.None? || (whole == "" && fraction == "")
       || (whole != "" && !IsDigitGroup(whole)) || (fraction != "" && !IsDigitGroup(fraction)) then None
    else
      var x := GroupValue(whole) as real + GroupValue(fraction) as real / Pow10(DigitCount(fraction));
      ScaleNonNegative(x, exponent.value);
      Some(Scale(x, exponent.value))
  }

  lemma ScaleNonNegative(x: real, e: int)
    requires x >= 0.0
    ensures Scale(x, e) >= 0.0
  {
  }

  /** `float(s)`: surrounding whitespace, an optional sign, then `inf`,
      `infinity` or `nan` in any case, or a decimal. Anything else raises,
      modelled as `None`. */
  function ParseFloat(s: string): (r: Option<Float>)
    ensures var t := SplitSign(Strip(s));
      && (IsInf(t.1) || IsInfinity(t.1) <==> r == Some(Infinity(t.0)))
      && (IsNaN(t.1) <==> r == Some(NaN))
    ensures r.Some? && r.value.Finite? ==> ParseDecimal(SplitSign(Strip(s)).1).Some?
  {
    var t := SplitSign(Strip(s));
    if IsInf(t.1) || IsInfinity(t.1) then Some(Infinity(t.0))
    else if IsNaN(t.1) then Some(NaN)
    else
      match ParseDecimal(t.1)
      case None => None
      case Some(x) => Some(Finite(if t.0 then -x else x))
  }

  /** `validar_numero_positivo`: the text parses as a number greater than
      zero. Positive infinity is; NaN compares false with everything. */
  function ValidPositive(s: string): (ok: bool)
    ensures ok <==> ParseFloat(s).Some? && (ParseFloat(s).value == Infinity(false)
                                           || (ParseFloat(s).value.Finite? && ParseFloat(s).value.x > 0.0))
  {
    match ParseFloat(s)
    case None => false
    case Some(Finite(x)) => x > 0.0
    case Some(Infinity(negative)) => !negative
    case Some(NaN) => false
  }

  /** A digit group contains no point and no exponent mark. */
  lemma GroupHasNoMarks(g: string)
    requires IsDigitGroup(g)
    ensures Find(g, "eE") == |g| && Find(g, ".") == |g|
  {
    assert forall i :: 0 <= i < |g| ==> g[i] !in "eE" && g[i] !in ".";
  }

  /** A digit group read as a decimal has the value `int()` gives it. */
  lemma DecimalOfGroup(g: string)
    requires IsDigitGroup(g)
    ensures ParseDecimal(g) == Some(GroupValue(g) as real)
  {
    GroupHasNoMarks(g);
    assert g[..|g|] == g;
  }

  /** Every text `int()` accepts, `float()` accepts with the same value. */
  lemma IntIsFloat(s: string)
    requires ParseInt(s).Some?
    ensures ParseFloat(s) == Some(Finite(ParseInt(s).value as real))
  {
    IntOfGroup(s);
    FloatOfGroup(s);
  }

  /** `n` with a minus sign when `negative`. */
  function SignedValue(negative: bool, n: nat): int {
    if negative then -(n as int) else n
  }

  /** A signed digit group reads as its value with the sign. */
  lemma IntOfGroup(s: string)
    requires IsDigitGroup(SplitSign(Strip(s)).1)
    ensures var t := SplitSign(Strip(s));
      ParseInt(s) == Some(SignedValue(t.0, GroupValue(t.1)))
  {
    var t := SplitSign(Strip(s));
    ReadSignedDigits(Strip(s), t.0, t.1);
  }

  /** `float()` reads a signed digit group as `int()` does. */
  lemma FloatOfGroup(s: string)
    requires IsDigitGroup(SplitSign(Strip(s)).1)
    ensures var t := SplitSign(Strip(s));
      ParseFloat(s) == Some(Finite(SignedValue(t.0, GroupValue(t.1)) as real))
  {
    var t := SplitSign(Strip(s));
    GroupIsNoWord(t.1);
    DecimalOfGroup(t.1);
    FloatOfDecimal(s, t.0, t.1, GroupValue(t.1) as real);
  }

  /** A signed decimal that is not one of the special words reads as the
      decimal's value with the sign. */
  lemma FloatOfDecimal(s: string, negative: bool, body: string, x: real)
    requires SplitSign(Strip(s)) == (negative, body)
    requires !IsInf(body) && !IsInfinity(body) && !IsNaN(body)
    requires ParseDecimal(body) == Some(x)
    ensures ParseFloat(s) == Some(Finite(if negative then -x else x))
  {
  }

  /** A digit group is none of the words `inf`, `infinity` and `nan`. */
  lemma GroupIsNoWord(g: string)
    requires IsDigitGroup(g)
    ensures !IsInf(g) && !IsInfinity(g) && !IsNaN(g)
  {
    assert IsDigit(g[0]);
  }

  /** Among printed integers, the validator accepts exactly the positive
      ones. */
  lemma ValidPositiveShow(n: int)
    ensures ValidPositive(Show(n)) <==> n > 0
  {
    ParseShow(n);
    IntIsFloat(Show(n));
  }

  /** An optional sign followed by a word that starts and ends with a
      letter reads as that sign and that word. */
  lemma SignedWord(sign: string, word: string)
    requires sign == "" || sign == "+" || sign == "-"
    requires |word| > 0 && 'a' <= LowerChar(word[0]) <= 'z' && 'a' <= LowerChar(word[|word| - 1]) <= 'z'
    ensures SplitSign(Strip(sign + word)) == (sign == "-", word)
  {
    LetterIsPlain(word[0]);
    LetterIsPlain(word[|word| - 1]);
    SignedEnds(sign, word);
    StripTrimmed(sign + word);
    SplitSignOf(sign, word);
  }

  /** A character whose lower case is a letter is neither whitespace nor a
      sign. */
  lemma LetterIsPlain(c: char)
    requires 'a' <= LowerChar(c) <= 'z'
    ensures !IsSpace(c) && c != '+' && c != '-'
  {
  }

  /** A sign or none before text that neither starts nor ends with
      whitespace gives text that neither starts nor ends with whitespace. */
  lemma SignedEnds(sign: string, word: string)
    requires sign == "" || sign == "+" || sign == "-"
    requires |word| > 0 && !IsSpace(word[0]) && !IsSpace(word[|word| - 1])
    ensures var s := sign + word;
      |s| > 0 && !IsSpace(s[0]) && !IsSpace(s[|s| - 1])
  {
    var s := sign + word;
    assert s[|s| - 1] == word[|word| - 1];
    if sign == "" {
      assert s[0] == word[0];
    } else {
      assert s[0] == sign[0];
    }
  }

  /** The sign split gives back the sign and the text after it. */
  lemma SplitSignOf(sign: string, word: string)
    requires sign == "" || sign == "+" || sign == "-"
    requires |word| > 0 && word[0] != '+' && word[0] != '-'
    ensures SplitSign(sign + word) == (sign == "-", word)
  {
    var s := sign + word;
    if sign == "" {
      assert s == word;
    } else {
      assert s[0] == sign[0];
      assert s[1..] == word;
    }
  }

  /** `inf` and `infinity`, in any case and with a plus sign or none, are
      positive; with a minus sign they are not. */
  lemma InfinityIsPositive(word: string)
    requires IsInf(word) || IsInfinity(word)
    ensures ValidPositive(word) && ValidPositive("+" + word)
    ensures !ValidPositive("-" + word)
  {
    InfinityOf("", word);
    InfinityOf("+", word);
    InfinityOf("-", word);
    assert "" + word == word;
  }

  /** A signed spelling of infinity reads as an infinity with that sign. */
  lemma InfinityOf(sign: string, word: string)
    requires sign == "" || sign == "+" || sign == "-"
    requires IsInf(word) || IsInfinity(word)
    ensures ParseFloat(sign + word) == Some(Infinity(sign == "-"))
  {
    SignedWord(sign, word);
  }

  /** `nan` in any case and with any sign parses, but is not positive. */
  lemma NaNIsNotPositive(word: string)
    requires IsNaN(word)
    ensures ParseFloat(word) == Some(NaN)
    ensures !ValidPositive(word) && !ValidPositive("-" + word)
  {
    NaNOf("", word);
    NaNOf("-", word);
    assert "" + word == word;
  }

  /** A signed spelling of `nan` reads as NaN. */
  lemma NaNOf(sign: string, word: string)
    requires sign == "" || sign == "+" || sign == "-"
    requires IsNaN(word)
    ensures ParseFloat(sign + word) == Some(NaN)
  {
    SignedWord(sign, word);
  }

  // ===== Accepted and rejected forms =====

  /** Padding, a plus sign and underscores between digits are all accepted:
      a digit group, after an optional `+` and between padding, reads as its
      value. It is a valid non-negative integer, and a valid positive number
      exactly when it is not 0. */
  lemma AcceptsPaddedGroup(before: string, sign: string, g: string, after: string)
    requires AllPad(before) && AllPad(after) && (sign == "" || sign == "+") && IsDigitGroup(g)
    ensures ParseInt(before + (sign + g) + after) == Some(GroupValue(g) as int)
    ensures ValidNonNegativeInt(before + (sign + g) + after)
    ensures ValidPositive(before + (sign + g) + after) <==> GroupValue(g) > 0
  {
    UnsignedGroup(sign, g);
    ParseIntIgnoresPadding(before, sign + g, after);
    IntValidators(before + (sign + g) + after);
  }

  /** On text `int()` accepts, each validator compares the integer read
      with 0. */
  lemma IntValidators(s: string)
    requires ParseInt(s).Some?
    ensures ValidNonNegativeInt(s) <==> ParseInt(s).value >= 0
    ensures ValidPositive(s) <==> ParseInt(s).value > 0
  {
    IntIsFloat(s);
  }

  /** A digit group after `+` or nothing reads as its value, and neither
      starts nor ends with padding. */
  lemma UnsignedGroup(sign: string, g: string)
    requires (sign == "" || sign == "+") && IsDigitGroup(g)
    ensures var t := sign + g;
      |t| > 0 && !IsPad(t[0]) && !IsPad(t[|t| - 1]) && ParseInt(t) == Some(GroupValue(g) as int)
  {
    var t := sign + g;
    assert IsDigit(g[0]) && IsDigit(g[|g| - 1]);
    SignedEnds(sign, g);
    StripTrimmed(t);
    SplitSignOf(sign, g);
    ReadSignedDigits(t, false, g);
  }

  /** The separators U+001C to U+001F split words like whitespace, but
      `int()` and `float()` reject a number that starts with one. */
  lemma SeparatorIsNotPadding(c: char, g: string)
    requires '\U{1C}' <= c <= '\U{1F}' && IsDigitGroup(g)
    ensures IsSpace(c) && Split([c] + g) == [g]
    ensures ParseInt([c] + g).None? && !ValidNonNegativeInt([c] + g)
    ensures ParseFloat([c] + g).None? && !ValidPositive([c] + g)
  {
    SeparatorSplits(c, g);
    SeparatorNotInt(c, g);
    SeparatorNotFloat(c, g);
  }

  lemma SeparatorNotInt(c: char, g: string)
    requires '\U{1C}' <= c <= '\U{1F}' && IsDigitGroup(g)
    ensures ParseInt([c] + g).None?
  {
    SeparatorKept(c, g);
  }

  lemma SeparatorNotFloat(c: char, g: string)
    requires '\U{1C}' <= c <= '\U{1F}' && IsDigitGroup(g)
    ensures ParseFloat([c] + g).None?
  {
    SeparatorKept(c, g);
    SeparatorNoDecimal(c, g);
    assert LowerChar(c) == c;
  }

  lemma SeparatorSplits(c: char, g: string)
    requires '\U{1C}' <= c <= '\U{1F}' && IsDigitGroup(g)
    ensures Split([c] + g) == [g]
  {
    assert ([c] + g)[1..] == g;
    assert IsWord(g) by {
      assert forall i :: 0 <= i < |g| ==> IsDigit(g[i]) || g[i] == '_';
    }
    SplitAfterWord(g, "");
    assert g + "" == g;
  }

  /** A separator before a digit group survives the strip and the sign
      split, so the text read as a number starts with it. */
  lemma SeparatorKept(c: char, g: string)
    requires '\U{1C}' <= c <= '\U{1F}' && IsDigitGroup(g)
    ensures SplitSign(Strip([c] + g)) == (false, [c] + g)
  {
    var s := [c] + g;
    assert s[|s| - 1] == g[|g| - 1];
    StripTrimmed(s);
  }

  /** Text that starts with a separator is no decimal. */
  lemma SeparatorNoDecimal(c: char, g: string)
    requires '\U{1C}' <= c <= '\U{1F}' && IsDigitGroup(g)
    ensures ParseDecimal([c] + g).None?
  {
    var s := [c] + g;
    GroupHasNoMarks(g);
    assert forall j :: 1 <= j < |s| ==> s[j] == g[j - 1];
    assert Find(s, "eE") == |s|;
    assert Find(s, ".") == |s|;
    assert s[..|s|] == s;
  }

  /** The value a whole part and a fraction written `w.f` stand for. */
  function FractionValue(w: string, f: string): real
    requires DigitsOrUnderscores(w) && DigitsOrUnderscores(f)
  {
    GroupValue(w) as real + GroupValue(f) as real / Pow10(DigitCount(f))
  }

  /** Digits, a point and more digits read as a decimal fraction, so
      `0.5` is accepted as positive and `0.0` is not. */
  lemma AcceptsFraction(w: string, f: string)
    requires IsDigitGroup(w) && IsDigitGroup(f)
    ensures ParseFloat(w + "." + f) == Some(Finite(FractionValue(w, f)))
    ensures ValidPositive(w + "." + f) <==> FractionValue(w, f) > 0.0
  {
    var s := w + "." + f;
    assert IsDigit(s[0]) && IsDigit(s[|s| - 1]) by {
      assert s[0] == w[0] && s[|s| - 1] == f[|f| - 1];
    }
    StripTrimmed(s);
    GroupIsNoWord([s[0]]);
    FractionDecimal(w, f);
    FloatOfDecimal(s, false, s, FractionValue(w, f));
  }

  /** `w.f` has no exponent mark and its only point follows `w`. */
  lemma FractionDecimal(w: string, f: string)
    requires IsDigitGroup(w) && IsDigitGroup(f)
    ensures ParseDecimal(w + "." + f) == Some(FractionValue(w, f))
  {
    var s := w + "." + f;
    GroupHasNoMarks(w);
    GroupHasNoMarks(f);
    assert forall j :: 0 <= j < |w| ==> s[j] == w[j];
    assert forall j :: |w| < j < |s| ==> s[j] == f[j - |w| - 1];
    assert s[|w|] == '.';
    assert Find(s, "eE") == |s|;
    assert s[..|s|] == s;
    assert Find(s, ".") == |w|;
    assert s[..|w|] == w;
    assert s[|w| + 1..] == f by {
      var tail := s[|w| + 1..];
      assert |tail| == |f|;
      assert forall j :: 0 <= j < |f| ==> tail[j] == f[j];
    }
    assert Scale(FractionValue(w, f), 0) == FractionValue(w, f);
  }
}
