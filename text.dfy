/** The string operations of Rust's standard library that the handshake uses:
    ASCII lower-casing, whitespace trimming, splitting on a character, line
    iteration and decimal formatting of integers. */
module Text {
  import opened Wire

  /** `char::to_ascii_lowercase`: A-Z become a-z, everything else is kept. */
  function LowerChar(c: char): (d: char)
    ensures 'A' <= c <= 'Z' ==> d as int == c as int + 32
    ensures !('A' <= c <= 'Z') ==> d == c
  {
    if 'A' <= c <= 'Z' then (c as int + 32) as char else c
  }

  /** `str::to_ascii_lowercase`. */
  function AsciiLower(s: string): (r: string)
    ensures |r| == |s|
    ensures forall i :: 0 <= i < |s| ==> r[i] == LowerChar(s[i])
  {
    seq(|s|, i requires 0 <= i < |s| => LowerChar(s[i]))
  }

  predicate HasNoUpper(s: string)
  {
    forall i :: 0 <= i < |s| ==> !('A' <= s[i] <= 'Z')
  }

  /** Lower-casing leaves no upper-case ASCII letter and is idempotent. */
  lemma AsciiLowerNormalises(s: string)
    ensures HasNoUpper(AsciiLower(s))
    ensures AsciiLower(AsciiLower(s)) == AsciiLower(s)
  {
  }

  /** The characters with Unicode's White_Space property, which is what
      `str::trim` removes. */
  predicate IsWhitespace(c: char)
  {
    ('\t' <= c <= '\r') || c == ' ' || c == '\U{85}' || c == '\U{A0}' || c == '\U{1680}'
    || ('\U{2000}' <= c <= '\U{200A}') || c == '\U{2028}' || c == '\U{2029}' || c == '\U{202F}'
    || c == '\U{205F}' || c == '\U{3000}'
  }

  /** The number of whitespace characters at the start of s. */
  function LeadingSpace(s: string): (n: nat)
    ensures n <= |s|
    ensures forall i :: 0 <= i < n ==> IsWhitespace(s[i])
    ensures n < |s| ==> !IsWhitespace(s[n])
  {
    if s == [] || !IsWhitespace(s[0]) then 0 else 1 + LeadingSpace(s[1..])
  }

  /** The number of whitespace characters at the end of s. */
  function TrailingSpace(s: string): (n: nat)
    ensures n <= |s|
    ensures forall i :: |s| - n <= i < |s| ==> IsWhitespace(s[i])
    ensures n < |s| ==> !IsWhitespace(s[|s| - 1 - n])
  {
    if s == [] || !IsWhitespace(s[|s| - 1]) then 0 else 1 + TrailingSpace(s[..|s| - 1])
  }

  /** A string with no whitespace at either end: what `str::trim` returns. */
  predicate Trimmed(s: string)
  {
    s == [] || (!IsWhitespace(s[0]) && !IsWhitespace(s[|s| - 1]))
  }

  /** `str::trim`: s without its leading and trailing whitespace. */
  function Trim(s: string): (r: string)
    ensures Trimmed(r)
  {
    var i := LeadingSpace(s);
    var j := |s| - TrailingSpace(s[i..]);
    s[i..j]
  }

  /** Trimming removes whitespace only, and only at the two ends. */
  lemma TrimRemovesEndSpace(s: string)
    ensures exists i, j ::
              && 0 <= i <= j <= |s| && Trim(s) == s[i..j]
              && (forall k :: 0 <= k < i ==> IsWhitespace(s[k]))
              && (forall k :: j <= k < |s| ==> IsWhitespace(s[k]))
  {
    var i := LeadingSpace(s);
    var t := s[i..];
    var j := |s| - TrailingSpace(t);
    assert Trim(s) == s[i..j];
    assert forall k :: 0 <= k < i ==> IsWhitespace(s[k]);
    forall k | j <= k < |s|
      ensures IsWhitespace(s[k])
    {
      assert s[k] == t[k - i];
    }
  }

  /** Trimming a trimmed string changes nothing, and one space in front of it
      is all that trimming removes. */
  lemma TrimTrimmed(s: string)
    requires Trimmed(s)
    ensures Trim(s) == s
    ensures Trim(" " + s) == s
  {
    assert LeadingSpace(s) == 0;
    assert s[0..] == s;
    assert TrailingSpace(s) == 0;
    var t := " " + s;
    assert LeadingSpace(t) == 1 by {
      assert t[1..] == s;
    }
    assert t[1..] == s;
  }

  /** Lower-casing keeps a trimmed string trimmed and keeps its spaces. */
  lemma AsciiLowerKeepsSpace(s: string)
    ensures Trimmed(s) ==> Trimmed(AsciiLower(s))
    ensures ' ' in s ==> ' ' in AsciiLower(s)
  {
    if ' ' in s {
      var i :| 0 <= i < |s| && s[i] == ' ';
      assert AsciiLower(s)[i] == ' ';
    }
  }

  /** Lower-casing a string with no upper-case letter changes nothing. */
  lemma AsciiLowerOfLower(s: string)
    requires HasNoUpper(s)
    ensures AsciiLower(s) == s
  {
  }

  /** The position of the first occurrence of c in s, or |s| when there is
      none. */
  function Find(s: string, c: char): (i: nat)
    ensures i <= |s|
    ensures i < |s| ==> s[i] == c
    ensures forall j :: 0 <= j < i ==> s[j] != c
  {
    if s == [] || s[0] == c then 0 else 1 + Find(s[1..], c)
  }

  /** The first piece `str::split(c)` yields: s up to its first c. */
  function FirstPiece(s: string, c: char): (p: string)
    ensures c !in p
    ensures p <= s
    ensures |p| < |s| ==> s[|p|] == c
  {
    s[..Find(s, c)]
  }

  /** `str::split_once(c)`: the text before and after the first c, if any. */
  function SplitOnce(s: string, c: char): (r: Option<(string, string)>)
    ensures r.None? <==> c !in s
    ensures r.Some? ==> && |r.value.0| == Find(s, c) < |s|
                        && r.value.0 == s[..Find(s, c)]
                        && r.value.1 == s[Find(s, c) + 1..]
  {
    var i := Find(s, c);
    if i == |s| then None else Some((s[..i], s[i + 1..]))
  }

  /** The two parts of a split, rejoined around c, give back the string; the
      first part holds no c. */
  lemma SplitOnceJoins(s: string, c: char)
    requires c in s
    ensures s == SplitOnce(s, c).value.0 + [c] + SplitOnce(s, c).value.1
    ensures c !in SplitOnce(s, c).value.0
  {
    var i := Find(s, c);
    var before, after := s[..i], s[i + 1..];
    assert s == before + ([c] + after) by {
      assert s[i..] == [c] + after;
      assert s == before + s[i..];
    }
    AppendAssociative(before, [c], after);
    forall k | 0 <= k < |before|
      ensures before[k] != c
    {
    }
  }

  /** A line of `str::lines` without its terminating "\n": one "\r" before the
      "\n" goes too. */
  function StripCarriageReturn(line: string): string
  {
    if |line| > 0 && line[|line| - 1] == '\r' then line[..|line| - 1] else line
  }

  /** `str::lines`: s cut after every "\n", each piece losing its "\n" and a
      "\r" just before it; a final piece without "\n" is kept as it is, and a
      final "\n" does not start an empty line. */
  function Lines(s: string): (ls: seq<string>)
    ensures forall k :: 0 <= k < |ls| ==> '\n' !in ls[k]
    ensures s == [] <==> ls == []
    decreases |s|
  {
    if s == [] then []
    else
      var i := Find(s, '\n');
      if i == |s| then [s] else [StripCarriageReturn(s[..i])] + Lines(s[i + 1..])
  }

  /** Lines written out with CRLF terminators, as in an HTTP message head. */
  function JoinCrlf(ls: seq<string>): string
  {
    if ls == [] then [] else ls[0] + "\r\n" + JoinCrlf(ls[1..])
  }

  /** Reading CRLF-terminated lines back with `str::lines` gives the lines,
      then the lines of whatever follows them, provided no line holds a line
      feed: only the one carriage return before each line feed is removed. */
  lemma {:induction false} LinesOfJoinCrlf(ls: seq<string>, rest: string)
    requires forall k :: 0 <= k < |ls| ==> '\n' !in ls[k]
    ensures Lines(JoinCrlf(ls) + rest) == ls + Lines(rest)
  {
    if ls == [] {
      assert JoinCrlf(ls) + rest == rest;
    } else {
      var more := ls[1..];
      LinesOfJoinCrlfStep(ls, rest);
      LinesOfJoinCrlf(more, rest);
      AppendAssociative([ls[0]], more, Lines(rest));
      assert [ls[0]] + more == ls;
    }
  }

  /** The first of the CRLF-terminated lines is read back first. */
  lemma LinesOfJoinCrlfStep(ls: seq<string>, rest: string)
    requires ls != [] && forall k :: 0 <= k < |ls| ==> '\n' !in ls[k]
    ensures forall k :: 0 <= k < |ls[1..]| ==> '\n' !in ls[1..][k]
    ensures Lines(JoinCrlf(ls) + rest) == [ls[0]] + Lines(JoinCrlf(ls[1..]) + rest)
  {
    var line, tail := ls[0], JoinCrlf(ls[1..]);
    AppendAssociative(line + "\r\n", tail, rest);
    LinesOfCrlfLine(line, tail + rest);
  }

  /** One CRLF-terminated line in front of a text is read back first. */
  lemma LinesOfCrlfLine(line: string, tail: string)
    requires '\n' !in line
    ensures Lines(line + "\r\n" + tail) == [line] + Lines(tail)
  {
    var s := line + "\r\n" + tail;
    var i := |line| + 1;
    assert s[..i] == line + "\r" && s[i] == '\n' && s[i + 1..] == tail by {
      assert s == (line + "\r") + ("\n" + tail);
    }
    assert Find(s, '\n') == i by {
      FindFirst(s, '\n', i);
    }
    assert StripCarriageReturn(s[..i]) == line;
  }

  /** Two runs of lines written out one after the other. */
  lemma {:induction false} JoinCrlfAppend(xs: seq<string>, ys: seq<string>)
    ensures JoinCrlf(xs + ys) == JoinCrlf(xs) + JoinCrlf(ys)
  {
    if xs == [] {
      assert xs + ys == ys;
    } else {
      assert (xs + ys)[1..] == xs[1..] + ys;
      JoinCrlfAppend(xs[1..], ys);
      AppendAssociative(xs[0] + "\r\n", JoinCrlf(xs[1..]), JoinCrlf(ys));
    }
  }

  /** One more line written out is that line and its CRLF after the others. */
  lemma {:induction false} JoinCrlfSnoc(ls: seq<string>, line: string)
    ensures JoinCrlf(ls + [line]) == JoinCrlf(ls) + (line + "\r\n")
  {
    if ls == [] {
      assert ls + [line] == [line];
    } else {
      assert (ls + [line])[1..] == ls[1..] + [line];
      JoinCrlfSnoc(ls[1..], line);
    }
  }

  /** The first occurrence is where c occurs with no c before it. */
  lemma FindFirst(s: string, c: char, i: nat)
    requires i < |s| && s[i] == c && c !in s[..i]
    ensures Find(s, c) == i
  {
  }

  /** The decimal digits of n, without leading zeros (`Display` for integers). */
  function Decimal(n: nat): (r: string)
    ensures |r| >= 1
    ensures forall k :: 0 <= k < |r| ==> '0' <= r[k] <= '9'
    ensures |r| > 1 ==> r[0] != '0'
  {
    if n < 10 then [Digit(n)] else Decimal(n / 10) + [Digit(n % 10)]
  }

  function Digit(d: nat): (c: char)
    requires d < 10
    ensures '0' <= c <= '9' && c as int - '0' as int == d
  {
    ('0' as int + d) as char
  }

  /** The number a string of decimal digits denotes. */
  function DecimalValue(s: string): nat
    requires forall k :: 0 <= k < |s| ==> '0' <= s[k] <= '9'
  {
    if s == [] then 0 else 10 * DecimalValue(s[..|s| - 1]) + (s[|s| - 1] as int - '0' as int)
  }

  /** Reading the digits back gives the number. */
  lemma {:induction false} DecimalRoundTrip(n: nat)
    ensures DecimalValue(Decimal(n)) == n
  {
    if n >= 10 {
      var r := Decimal(n);
      assert r[..|r| - 1] == Decimal(n / 10);
      DecimalRoundTrip(n / 10);
    }
  }
}
