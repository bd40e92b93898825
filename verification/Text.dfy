/** The string operations of Python that the components use. */
module Text {
  import opened Sequences

  predicate StartsWith(s: string, prefix: string) {
    |prefix| <= |s| && s[..|prefix|] == prefix
  }

  predicate EndsWith(s: string, suffix: string) {
    |suffix| <= |s| && s[|s| - |suffix|..] == suffix
  }

  predicate Contains(s: string, part: string) {
    exists i | 0 <= i <= |s| :: StartsWith(s[i..], part)
  }

  /** `s.split(c)[0]`. */
  function CutAt(s: string, c: char): string {
    if c in s then s[..FirstIndex(s, c)] else s
  }

  /** Cutting at a character that the beginning does not have leaves it and cuts the rest, of which no such character is left. */
  lemma CutAfter(s: string, rest: string, c: char)
    requires c !in s
    ensures CutAt(s + rest, c) == s + CutAt(rest, c)
    ensures CutAt(rest, c) <= rest && c !in CutAt(rest, c)
  {
    var all := s + rest;
    if c in rest {
      var i := FirstIndex(rest, c);
      assert all[|s| + i] == c && forall j | 0 <= j < |s| + i :: all[j] == if j < |s| then s[j] else rest[j - |s|];
      assert FirstIndex(all, c) == |s| + i;
    } else {
      assert CutAt(rest, c) == rest;
    }
  }

  /** `s.split(c)`. */
  function SplitOn(s: string, c: char): seq<string> {
    if c in s then [s[..FirstIndex(s, c)]] + SplitOn(s[FirstIndex(s, c) + 1..], c) else [s]
  }

  /** `str.isspace` for one character. */
  predicate IsSpace(c: char) {
    c == ' ' || '\t' <= c <= '\r' || '\U{1c}' <= c <= '\U{1f}' || c == '\U{85}' || c == '\U{a0}' || c == '\U{1680}'
    || '\U{2000}' <= c <= '\U{200a}' || c == '\U{2028}' || c == '\U{2029}' || c == '\U{202f}' || c == '\U{205f}' || c == '\U{3000}'
  }

  function StripLeft(s: string): string {
    if s != "" && IsSpace(s[0]) then StripLeft(s[1..]) else s
  }

  function StripRight(s: string): string {
    if s != "" && IsSpace(s[|s| - 1]) then StripRight(s[..|s| - 1]) else s
  }

  /** `s.strip()`. */
  function Strip(s: string): string {
    StripRight(StripLeft(s))
  }

  lemma {:induction false} StripAfter(s: string, rest: string)
    requires s != "" && !IsSpace(s[0]) && !IsSpace(s[|s| - 1])
    ensures exists left :: left <= rest && Strip(s + rest) == s + left
  {
    if rest != "" && IsSpace(rest[|rest| - 1]) {
      var shorter := rest[..|rest| - 1];
      StripAfter(s, shorter);
      var left :| left <= shorter && Strip(s + shorter) == s + left;
      assert (s + rest)[..|s + rest| - 1] == s + shorter;
      assert left <= rest;
    } else {
      var all := s + rest;
      assert all[0] == s[0] && all[|all| - 1] == if rest == "" then s[|s| - 1] else rest[|rest| - 1];
      assert rest <= rest && Strip(all) == all;
    }
  }

  /** The first maximal run of characters that are not white space. */
  function FirstWord(s: string): string {
    if s == "" || IsSpace(s[0]) then "" else [s[0]] + FirstWord(s[1..])
  }

  /** `s.split()`. */
  function Words(s: string): seq<string>
    decreases |s|
  {
    if s == "" then []
    else if IsSpace(s[0]) then Words(s[1..])
    else
      FirstWordFits(s);
      [FirstWord(s)] + Words(s[|FirstWord(s)|..])
  }

  lemma FirstWordFits(s: string)
    ensures |FirstWord(s)| <= |s|
    ensures s != "" && !IsSpace(s[0]) ==> FirstWord(s) != ""
  {
  }

  /** `str.lower` for one ASCII character. */
  function LowerChar(c: char): char {
    if 'A' <= c <= 'Z' then (c as int + 32) as char else c
  }

  /** Letters, digits and the punctuation allowed in a package name. */
  predicate IsNameChar(c: char) {
    'a' <= c <= 'z' || 'A' <= c <= 'Z' || '0' <= c <= '9' || c == '.' || c == '-' || c == '+' || c == '_'
  }

  predicate IsName(s: string) {
    s != "" && forall i | 0 <= i < |s| :: IsNameChar(s[i])
  }
}
