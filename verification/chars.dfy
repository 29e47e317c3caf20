/**
 * Character classes and trimming as Python's `str` methods define them.
 *
 * The server calls `isalpha`, `isspace`, `lower` and `strip` on decoded
 * text. They are modelled exactly on the Latin-1 range (U+0000..U+00FF),
 * which covers ASCII and the Spanish letters the server's users type
 * (á, é, í, ó, ú, ñ, ü). Above U+00FF a character is treated as neither a
 * letter nor whitespace, and `Lower` leaves it unchanged.
 */
module Chars {

  /** `c.isalpha()`: ASCII letters and the Latin-1 letters ª µ º À..ÿ (except × and ÷). */
  predicate IsAlpha(c: char) {
    || ('A' <= c <= 'Z')
    || ('a' <= c <= 'z')
    || c == '\U{AA}' || c == '\U{B5}' || c == '\U{BA}'
    || ('\U{C0}' <= c <= '\U{FF}' && c != '\U{D7}' && c != '\U{F7}')
  }

  /** `c.isspace()`: tab, newline, vertical tab, form feed, carriage return,
      the four information separators U+001C..U+001F, space, NEL and NBSP. */
  predicate IsSpace(c: char) {
    || ('\t' <= c <= '\r')
    || ('\U{1C}' <= c <= ' ')
    || c == '\U{85}'
    || c == '\U{A0}'
  }

  /** Upper-case letters that `lower` maps to another character. */
  predicate IsUpper(c: char) {
    ('A' <= c <= 'Z') || ('\U{C0}' <= c <= '\U{DE}' && c != '\U{D7}')
  }

  /** `c.lower()` for a single character: upper-case letters move 32 code points down the table. */
  function Lower(c: char): (l: char)
    ensures !IsUpper(l)
    ensures IsAlpha(l) <==> IsAlpha(c)
    ensures !IsUpper(c) ==> l == c
  {
    if IsUpper(c) then (c as int + 32) as char else c
  }

  /** `s.lower()`: the text lowered character by character. */
  function LowerString(s: string): (t: string)
    ensures |t| == |s|
    ensures forall i | 0 <= i < |s| :: t[i] == Lower(s[i])
  {
    seq(|s|, i requires 0 <= i < |s| => Lower(s[i]))
  }

  lemma LowerIdempotent(c: char)
    ensures Lower(Lower(c)) == Lower(c)
  {
  }

  /** `s.lstrip()`: drops the leading whitespace. */
  function TrimLeft(s: string): (r: string)
    ensures |r| <= |s|
  {
    if s != [] && IsSpace(s[0]) then TrimLeft(s[1..]) else s
  }

  /** What `lstrip` keeps is a suffix, everything before it is whitespace, and it does not start with whitespace. */
  lemma {:induction false} TrimLeftSuffix(s: string)
    ensures var r := TrimLeft(s);
            && r == s[|s| - |r|..]
            && (forall i | 0 <= i < |s| - |r| :: IsSpace(s[i]))
            && (r != [] ==> !IsSpace(r[0]))
  {
    if s != [] && IsSpace(s[0]) {
      TrimLeftSuffix(s[1..]);
    }
  }

  /** `s.rstrip()`: drops the trailing whitespace. */
  function TrimRight(s: string): (r: string)
    ensures |r| <= |s|
  {
    if s != [] && IsSpace(s[|s| - 1]) then TrimRight(s[..|s| - 1]) else s
  }

  /** What `rstrip` keeps is a prefix, everything after it is whitespace, and it does not end with whitespace. */
  lemma {:induction false} TrimRightPrefix(s: string)
    ensures var r := TrimRight(s);
            && r == s[..|r|]
            && (forall i | |r| <= i < |s| :: IsSpace(s[i]))
            && (r != [] ==> !IsSpace(r[|r| - 1]))
  {
    if s != [] && IsSpace(s[|s| - 1]) {
      TrimRightPrefix(s[..|s| - 1]);
    }
  }

  /** `s.strip()`: drops whitespace at both ends. */
  function Strip(s: string): (r: string)
    ensures |r| <= |s|
    ensures r == [] <==> forall i | 0 <= i < |s| :: IsSpace(s[i])
    ensures r != [] ==> !IsSpace(r[0]) && !IsSpace(r[|r| - 1])
  {
    TrimLeftSuffix(s);
    TrimRightPrefix(TrimLeft(s));
    TrimRight(TrimLeft(s))
  }

  /** What `strip` keeps is the slice `s[a..b]` of the text, and every character outside that slice is whitespace. */
  lemma StripSlice(s: string)
    ensures var a := |s| - |TrimLeft(s)|;
            var b := a + |Strip(s)|;
            && 0 <= a <= b <= |s|
            && Strip(s) == s[a..b]
            && (forall i | 0 <= i < a :: IsSpace(s[i]))
            && (forall i | b <= i < |s| :: IsSpace(s[i]))
  {
    var t := TrimLeft(s);
    TrimLeftSuffix(s);
    TrimRightPrefix(t);
    var a := |s| - |t|;
    forall i | a + |Strip(s)| <= i < |s|
      ensures IsSpace(s[i])
    {
      assert s[i] == t[i - a];
    }
  }

  /** Stripping text that has no whitespace at either end changes nothing. */
  lemma {:induction false} StripOfTrimmed(s: string)
    requires s != [] ==> !IsSpace(s[0]) && !IsSpace(s[|s| - 1])
    ensures Strip(s) == s
  {
    assert TrimLeft(s) == s;
    assert TrimRight(s) == s;
  }

  /** `s.strip().strip() == s.strip()`. */
  lemma StripIdempotent(s: string)
    ensures Strip(Strip(s)) == Strip(s)
  {
    StripOfTrimmed(Strip(s));
  }
}
