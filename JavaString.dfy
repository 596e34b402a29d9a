/**
 * The few `java.lang.String` operations the core relies on: `trim`, ASCII
 * `toLowerCase`, `split("\\s+")`, `Collectors.joining(" ")`,
 * `replace("\"", "\"\"")` and the `%d` rendering of an `int`.
 */
module JavaString {
  import opened Wrappers

  // ---------------------------------------------------------------- trim

  /** `trim()` removes every leading and trailing character up to U+0020. */
  function TrimLeading(s: string): (r: string)
    ensures |r| <= |s| && r == s[|s| - |r|..]
    ensures r != [] ==> r[0] > ' '
    decreases |s|
  {
    if s != [] && s[0] <= ' ' then TrimLeading(s[1..]) else s
  }

  function TrimTrailing(s: string): (r: string)
    ensures |r| <= |s| && r == s[..|r|]
    ensures r != [] ==> r[|r| - 1] > ' '
    decreases |s|
  {
    if s != [] && s[|s| - 1] <= ' ' then TrimTrailing(s[..|s| - 1]) else s
  }

  function Trim(s: string): string {
    TrimTrailing(TrimLeading(s))
  }

  /** Every character is a control character or the space: what `trim()` erases entirely. */
  predicate IsBlank(s: string) {
    forall i :: 0 <= i < |s| ==> s[i] <= ' '
  }

  lemma {:induction false} TrimLeadingEmptyIffBlank(s: string)
    ensures TrimLeading(s) == [] <==> IsBlank(s)
    decreases |s|
  {
    if s != [] && s[0] <= ' ' {
      TrimLeadingEmptyIffBlank(s[1..]);
      assert IsBlank(s) <==> IsBlank(s[1..]) by {
        if IsBlank(s[1..]) {
          forall i | 0 <= i < |s| ensures s[i] <= ' ' {
            if i > 0 { assert s[i] == s[1..][i - 1]; }
          }
        }
      }
    }
  }

  lemma {:induction false} TrimTrailingEmptyIffBlank(s: string)
    ensures TrimTrailing(s) == [] <==> IsBlank(s)
    decreases |s|
  {
    if s != [] && s[|s| - 1] <= ' ' {
      var p := s[..|s| - 1];
      TrimTrailingEmptyIffBlank(p);
      assert IsBlank(s) <==> IsBlank(p) by {
        if IsBlank(p) {
          forall i | 0 <= i < |s| ensures s[i] <= ' ' {
            if i < |s| - 1 { assert s[i] == p[i]; }
          }
        }
      }
    }
  }

  /** `s.trim().isEmpty()` holds exactly for the blank strings. */
  lemma TrimEmptyIffBlank(s: string)
    ensures Trim(s) == [] <==> IsBlank(s)
  {
    var l := TrimLeading(s);
    TrimLeadingEmptyIffBlank(s);
    TrimTrailingEmptyIffBlank(l);
  }

  // ---------------------------------------------------------- lower case

  /** `Character.toLowerCase` on the ASCII letters; every other character is kept. */
  function LowerChar(c: char): char {
    if 'A' <= c <= 'Z' then (c as int - 'A' as int + 'a' as int) as char else c
  }

  /** `String.toLowerCase`, character by character. */
  function ToLower(s: string): string
  {
    seq(|s|, i requires 0 <= i < |s| => LowerChar(s[i]))
  }

  lemma ToLowerIdempotent(s: string)
    ensures ToLower(ToLower(s)) == ToLower(s)
  {
  }

  /** Lower-casing moves no character across U+0020, so blankness survives it. */
  lemma ToLowerKeepsBlank(s: string)
    ensures IsBlank(ToLower(s)) <==> IsBlank(s)
  {
    var t := ToLower(s);
    assert forall i :: 0 <= i < |s| ==> t[i] == LowerChar(s[i]);
  }

  // --------------------------------------------------------------- split

  /** The characters `\s` matches in a Java regular expression: `[ \t\n\x0B\f\r]`. */
  predicate IsSpace(c: char) {
    c == ' ' || c == '\t' || c == '\n' || c == '\U{000B}' || c == '\U{000C}' || c == '\r'
  }

  predicate NoSpace(w: string) {
    forall i :: 0 <= i < |w| ==> !IsSpace(w[i])
  }

  /** Length of the longest prefix of `s` without a `\s` character. */
  function WordLength(s: string): (n: nat)
    ensures n <= |s|
    ensures NoSpace(s[..n])
    ensures n < |s| ==> IsSpace(s[n])
  {
    if s == [] || IsSpace(s[0]) then 0
    else
      var n := 1 + WordLength(s[1..]);
      assert s[..n] == [s[0]] + s[1..][..n - 1];
      n
  }

  /** The maximal runs of non-`\s` characters of `s`, in order. */
  function Words(s: string): (ws: seq<string>)
    ensures forall k :: 0 <= k < |ws| ==> ws[k] != [] && NoSpace(ws[k])
    decreases |s|
  {
    if s == [] then []
    else if IsSpace(s[0]) then Words(s[1..])
    else
      var n := WordLength(s);
      [s[..n]] + Words(s[n..])
  }

  /**
   * `s.split("\\s+")`: the pieces between runs of `\s`, with trailing empty
   * pieces dropped. A leading run of `\s` yields a leading empty piece, and a
   * string without any match yields itself, so `"".split(..)` is `[""]`.
   */
  function Split(s: string): seq<string> {
    if s == [] then [""]
    else if Words(s) == [] then []
    else if IsSpace(s[0]) then [""] + Words(s)
    else Words(s)
  }

  /** `Collectors.joining(" ")`. */
  function JoinWords(ws: seq<string>): string {
    if ws == [] then ""
    else if |ws| == 1 then ws[0]
    else ws[0] + " " + JoinWords(ws[1..])
  }

  lemma {:induction false} WordLengthOfWord(w: string, rest: string)
    requires NoSpace(w)
    requires rest == [] || IsSpace(rest[0])
    ensures WordLength(w + rest) == |w|
    decreases |w|
  {
    if w != [] {
      assert (w + rest)[1..] == w[1..] + rest;
      WordLengthOfWord(w[1..], rest);
    }
  }

  lemma {:induction false} WordsLeadingSpace(s: string, rest: string)
    requires s != [] && forall i :: 0 <= i < |s| ==> IsSpace(s[i])
    ensures Words(s + rest) == Words(rest)
    decreases |s|
  {
    assert (s + rest)[1..] == s[1..] + rest;
    if |s| > 1 {
      WordsLeadingSpace(s[1..], rest);
    }
  }

  /** Splitting words joined by single spaces gives the words back. */
  lemma {:induction false} WordsOfJoin(ws: seq<string>)
    requires forall k :: 0 <= k < |ws| ==> ws[k] != [] && NoSpace(ws[k])
    ensures Words(JoinWords(ws)) == ws
    decreases |ws|
  {
    if ws == [] {
    } else if |ws| == 1 {
      WordLengthOfWord(ws[0], []);
      assert ws[0][|ws[0]|..] == [];
      assert ws[0][..|ws[0]|] == ws[0];
    } else {
      var tail := JoinWords(ws[1..]);
      var s := ws[0] + " " + tail;
      WordLengthOfWord(ws[0], " " + tail);
      assert ws[0] + " " + tail == ws[0] + (" " + tail);
      assert s[..|ws[0]|] == ws[0];
      assert s[|ws[0]|..] == " " + tail;
      WordsLeadingSpace(" ", tail);
      WordsOfJoin(ws[1..]);
      assert [ws[0]] + ws[1..] == ws;
    }
  }

  lemma JoinStartsWithFirstWord(ws: seq<string>)
    requires ws != [] && ws[0] != []
    ensures JoinWords(ws) != [] && JoinWords(ws)[0] == ws[0][0]
  {
  }

  /** For words without `\s`, `split` on their join is exactly the words. */
  lemma SplitOfJoin(ws: seq<string>)
    requires ws != []
    requires forall k :: 0 <= k < |ws| ==> ws[k] != [] && NoSpace(ws[k])
    ensures Split(JoinWords(ws)) == ws
  {
    WordsOfJoin(ws);
    JoinStartsWithFirstWord(ws);
  }

  /** A string with a character above U+0020 has a word; blank strings are the only others. */
  lemma {:induction false} WordsNonEmptyOfNotBlank(s: string)
    requires !IsBlank(s)
    ensures Words(s) != []
    decreases |s|
  {
    if IsSpace(s[0]) {
      assert !IsBlank(s[1..]) by {
        var i :| 0 <= i < |s| && s[i] > ' ';
        assert i > 0;
        assert s[1..][i - 1] == s[i];
      }
      WordsNonEmptyOfNotBlank(s[1..]);
    }
  }

  // ------------------------------------------------------ quote doubling

  function CountQuotes(s: string): (n: nat)
    ensures n <= |s|
  {
    if s == [] then 0 else (if s[0] == '"' then 1 else 0) + CountQuotes(s[1..])
  }

  /** `s.replace("\"", "\"\"")`. */
  function DoubleQuotes(s: string): (e: string)
    ensures |e| == |s| + CountQuotes(s)
  {
    if s == [] then []
    else (if s[0] == '"' then "\"\"" else [s[0]]) + DoubleQuotes(s[1..])
  }

  /** Replaces every `""` by `"`, reading left to right; a lone `"` is kept. */
  function UndoubleQuotes(e: string): string
    decreases |e|
  {
    if e == [] then []
    else if |e| >= 2 && e[0] == '"' && e[1] == '"' then "\"" + UndoubleQuotes(e[2..])
    else [e[0]] + UndoubleQuotes(e[1..])
  }

  lemma {:induction false} UndoubleDoubleQuotes(s: string)
    ensures UndoubleQuotes(DoubleQuotes(s)) == s
    decreases |s|
  {
    if s != [] {
      UndoubleDoubleQuotes(s[1..]);
      var e := DoubleQuotes(s);
      if s[0] == '"' {
        assert e[2..] == DoubleQuotes(s[1..]);
      } else {
        assert e[1..] == DoubleQuotes(s[1..]);
      }
    }
  }

  lemma {:induction false} DoubleQuotesWithoutQuote(s: string)
    requires forall i :: 0 <= i < |s| ==> s[i] != '"'
    ensures DoubleQuotes(s) == s
    decreases |s|
  {
    if s != [] {
      DoubleQuotesWithoutQuote(s[1..]);
    }
  }

  // ------------------------------------------------------- int rendering

  function DigitChar(d: nat): char
    requires d < 10
  {
    ('0' as int + d) as char
  }

  predicate IsDigit(c: char) {
    '0' <= c <= '9'
  }

  /** Decimal digits of `n`, most significant first, no leading zero. */
  function NatToString(n: nat): (s: string)
    ensures s != []
    ensures forall i :: 0 <= i < |s| ==> IsDigit(s[i])
  {
    if n < 10 then [DigitChar(n)] else NatToString(n / 10) + [DigitChar(n % 10)]
  }

  /** `String.format("%d", i)`: a `-` sign for negatives, then the digits. */
  function IntToString(i: int): (s: string)
    ensures s != []
  {
    if i < 0 then "-" + NatToString(-i) else NatToString(i)
  }

  function ReadDigits(s: string): nat
    requires forall i :: 0 <= i < |s| ==> IsDigit(s[i])
  {
    if s == [] then 0
    else
      var last := s[|s| - 1];
      assert IsDigit(last);
      ReadDigits(s[..|s| - 1]) * 10 + (last as int - '0' as int)
  }

  /** Reads back what `IntToString` writes; anything else is `None`. */
  function ReadInt(s: string): Option<int> {
    if s != [] && s[0] == '-' && |s| > 1 && forall i :: 1 <= i < |s| ==> IsDigit(s[i]) then
      Some(-(ReadDigits(s[1..]) as int))
    else if s != [] && forall i :: 0 <= i < |s| ==> IsDigit(s[i]) then
      Some(ReadDigits(s))
    else None
  }

  lemma {:induction false} ReadDigitsOfNatToString(n: nat)
    ensures ReadDigits(NatToString(n)) == n
  {
    if n >= 10 {
      var s := NatToString(n);
      assert s[..|s| - 1] == NatToString(n / 10);
      ReadDigitsOfNatToString(n / 10);
    }
  }

  lemma ReadIntOfIntToString(i: int)
    ensures ReadInt(IntToString(i)) == Some(i)
  {
    var s := IntToString(i);
    if i < 0 {
      ReadDigitsOfNatToString(-i);
      assert s[1..] == NatToString(-i);
    } else {
      ReadDigitsOfNatToString(i);
    }
  }
}
