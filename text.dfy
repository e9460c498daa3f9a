/**
 * The string handling both ends of the protocol lean on: Python's notion of
 * whitespace, `str.split()` with no argument, `str.strip()`, `int()` on a
 * decimal token and `str()` of an integer.  Bytes on the wire are `byte`s.
 */
module Text {
  import opened Wrappers

  newtype byte = x: int | 0 <= x < 256

  /**
   * `bytes.decode()` on ASCII input: each byte becomes the character with
   * its code.  Bytes of 128 and above are taken as Latin-1 rather than as
   * UTF-8, which the model does not decode.
   */
  function Decode(b: seq<byte>): (s: string)
    ensures |s| == |b|
    ensures forall i | 0 <= i < |b| :: s[i] as int == b[i] as int
  {
    seq(|b|, i requires 0 <= i < |b| => (b[i] as int) as char)
  }

  /** The characters Python's `str.isspace` accepts (what `split()` and `strip()` cut at). */
  predicate IsSpace(c: char) {
    || ('\t' <= c <= '\r')            // tab, line feed, vertical tab, form feed, carriage return
    || ('\U{1c}' <= c <= ' ')         // the four separator controls and the space
    || c == '\U{85}' || c == '\U{a0}' || c == '\U{1680}'
    || ('\U{2000}' <= c <= '\U{200a}')
    || c == '\U{2028}' || c == '\U{2029}' || c == '\U{202f}' || c == '\U{205f}' || c == '\U{3000}'
  }

  /** A word as `split()` yields it: non-empty and free of whitespace. */
  predicate IsToken(t: string) {
    t != [] && forall i | 0 <= i < |t| :: !IsSpace(t[i])
  }

  /** The length of the word that starts `s`. */
  function TokenLength(s: string): (n: nat)
    requires s != [] && !IsSpace(s[0])
    ensures 1 <= n <= |s|
    ensures forall i | 0 <= i < n :: !IsSpace(s[i])
    ensures n < |s| ==> IsSpace(s[n])
  {
    if |s| == 1 || IsSpace(s[1]) then 1 else 1 + TokenLength(s[1..])
  }

  /** Python's `s.split()`: the maximal runs of non-whitespace characters, in order. */
  function Split(s: string): (words: seq<string>)
    ensures forall k | 0 <= k < |words| :: IsToken(words[k])
    decreases |s|
  {
    if s == [] then []
    else if IsSpace(s[0]) then Split(s[1..])
    else
      var n := TokenLength(s);
      [s[..n]] + Split(s[n..])
  }

  /** The request line a client builds with an f-string: the words separated by single spaces. */
  function Join(words: seq<string>): string {
    if words == [] then ""
    else if |words| == 1 then words[0]
    else words[0] + " " + Join(words[1..])
  }

  lemma TokenLengthOf(t: string, rest: string)
    requires IsToken(t)
    requires rest == [] || IsSpace(rest[0])
    ensures TokenLength(t + rest) == |t|
  {
    var s := t + rest;
    assert forall i | 0 <= i < |t| :: s[i] == t[i];
    assert rest != [] ==> s[|t|] == rest[0];
  }

  /** A word followed by whitespace (or nothing) splits off as that word. */
  lemma SplitToken(t: string, rest: string)
    requires IsToken(t)
    requires rest == [] || IsSpace(rest[0])
    ensures Split(t + rest) == [t] + Split(rest)
  {
    var s := t + rest;
    TokenLengthOf(t, rest);
    assert s[..|t|] == t;
    assert s[|t|..] == rest;
  }

  /** Splitting a space-joined request line gives back its words. */
  lemma {:induction false} SplitJoin(words: seq<string>)
    requires forall k | 0 <= k < |words| :: IsToken(words[k])
    ensures Split(Join(words)) == words
  {
    if |words| == 1 {
      SplitToken(words[0], "");
      assert words[0] + "" == words[0];
    } else if |words| > 1 {
      var tail := Join(words[1..]);
      assert words[0] + " " + tail == words[0] + (" " + tail);
      SplitToken(words[0], " " + tail);
      assert (" " + tail)[1..] == tail;
      SplitJoin(words[1..]);
    }
  }

  lemma PrefixOfConcat(a: string, b: string)
    ensures a <= a + b
  {
    assert (a + b)[..|a|] == a;
  }

  /** A string that starts with `p` agrees with `p` on `p`'s indices. */
  lemma PrefixIndex(p: string, c: string, i: nat)
    requires p <= c && i < |p|
    ensures i < |c| && c[i] == p[i]
  {
  }

  lemma PrefixTrans(a: string, b: string, c: string)
    requires a <= b && b <= c
    ensures a <= c
  {
    assert c[..|a|] == c[..|b|][..|a|];
  }

  /** A string that differs from `p` at an index of both does not start with `p`. */
  lemma NotPrefixAt(p: string, c: string, i: nat)
    requires i < |p| && i < |c| && p[i] != c[i]
    ensures !(p <= c)
  {
  }

  /** The first word of a joined line is a prefix of it. */
  lemma JoinPrefix(words: seq<string>)
    requires words != []
    ensures words[0] <= Join(words)
  {
    if |words| > 1 {
      var rest := " " + Join(words[1..]);
      assert Join(words) == words[0] + rest;
      PrefixOfConcat(words[0], rest);
    }
  }

  /** `s.lstrip()`. */
  function TrimStart(s: string): (r: string)
    ensures |r| <= |s| && r == s[|s| - |r|..]
    ensures r == [] || !IsSpace(r[0])
    ensures forall i | 0 <= i < |s| - |r| :: IsSpace(s[i])
  {
    if s != [] && IsSpace(s[0]) then TrimStart(s[1..]) else s
  }

  /** `s.rstrip()`. */
  function TrimEnd(s: string): (r: string)
    ensures |r| <= |s| && r == s[..|r|]
    ensures r == [] || !IsSpace(r[|r| - 1])
    ensures forall i | |r| <= i < |s| :: IsSpace(s[i])
  {
    if s != [] && IsSpace(s[|s| - 1]) then TrimEnd(s[..|s| - 1]) else s
  }

  /** Python's `s.strip()`: the part of `s` between its leading and its trailing whitespace. */
  function Strip(s: string): (r: string)
    ensures r == [] || (!IsSpace(r[0]) && !IsSpace(r[|r| - 1]))
  {
    TrimEnd(TrimStart(s))
  }

  /** A line that neither starts nor ends with whitespace is left alone by `strip()`. */
  lemma StripUntrimmed(s: string)
    requires s == [] || (!IsSpace(s[0]) && !IsSpace(s[|s| - 1]))
    ensures Strip(s) == s
  {
  }

  lemma {:induction false} JoinEnds(words: seq<string>)
    requires words != []
    requires forall k | 0 <= k < |words| :: IsToken(words[k])
    ensures var j := Join(words); j != [] && !IsSpace(j[0]) && !IsSpace(j[|j| - 1])
  {
    if |words| > 1 {
      JoinEnds(words[1..]);
      var tail := Join(words[1..]);
      var j := words[0] + " " + tail;
      assert j[0] == words[0][0];
      assert j[|j| - 1] == tail[|tail| - 1];
    }
  }

  /** A space-joined request line survives the server's `strip()` unchanged. */
  lemma StripJoin(words: seq<string>)
    requires words != []
    requires forall k | 0 <= k < |words| :: IsToken(words[k])
    ensures Strip(Join(words)) == Join(words)
  {
    JoinEnds(words);
    StripUntrimmed(Join(words));
  }

  predicate IsDigit(c: char) {
    '0' <= c <= '9'
  }

  predicate AllDigits(s: string) {
    forall i | 0 <= i < |s| :: IsDigit(s[i])
  }

  function DigitChar(d: nat): (c: char)
    requires d < 10
    ensures IsDigit(c) && (c as int) - ('0' as int) == d
  {
    ('0' as int + d) as char
  }

  /** The value of a run of decimal digits, most significant first. */
  function DigitsValue(s: string): nat
    requires AllDigits(s)
  {
    if s == [] then 0 else DigitsValue(s[..|s| - 1]) * 10 + ((s[|s| - 1] as int) - ('0' as int))
  }

  /** An optional sign and then one or more ASCII digits. */
  predicate IsIntLiteral(s: string) {
    && s != []
    && var digits := if s[0] == '-' || s[0] == '+' then s[1..] else s;
       digits != [] && AllDigits(digits)
  }

  /** Python's `int(token)` for a word: an optional sign and one or more ASCII digits, else `None` (a ValueError). */
  function ParseInt(s: string): (r: Option<int>)
    ensures r.Some? <==> IsIntLiteral(s)
    ensures r.Some? && r.value < 0 ==> s[0] == '-'
  {
    if s != [] && (s[0] == '-' || s[0] == '+') then
      var digits := s[1..];
      if digits != [] && AllDigits(digits) then
        Some(if s[0] == '-' then -(DigitsValue(digits) as int) else DigitsValue(digits))
      else None
    else if s != [] && AllDigits(s) then Some(DigitsValue(s))
    else None
  }

  /** Python's `str(n)` for a natural number. */
  function NatToString(n: nat): (s: string)
    ensures s != [] && AllDigits(s)
  {
    if n < 10 then [DigitChar(n)] else NatToString(n / 10) + [DigitChar(n % 10)]
  }

  /** Python's `str(n)` for an integer. */
  function IntToString(n: int): (s: string)
    ensures IsToken(s)
  {
    if n < 0 then "-" + NatToString(-n) else NatToString(n)
  }

  lemma {:induction false} DigitsRoundTrip(n: nat)
    ensures DigitsValue(NatToString(n)) == n
  {
    if n >= 10 {
      var s := NatToString(n);
      assert s[..|s| - 1] == NatToString(n / 10);
      DigitsRoundTrip(n / 10);
    }
  }

  /** What `str` prints, `int` reads back: the size a client quotes is the size the server parses. */
  lemma ParseIntRoundTrip(n: int)
    ensures ParseInt(IntToString(n)) == Some(n)
  {
    if n < 0 {
      var digits := NatToString(-n);
      var s := "-" + digits;
      assert s == IntToString(n);
      assert s[1..] == digits;
      DigitsRoundTrip(-n);
      assert ParseInt(s) == Some(-(DigitsValue(digits) as int));
    } else {
      DigitsRoundTrip(n);
      var s := NatToString(n);
      assert s[0] != '-' && s[0] != '+';
    }
  }
}
