/** Character classes used by the validators and the line matchers, stated as
    predicates on Unicode scalar values. The POSIX classes that appear in the
    regular expressions (`[[:print:]]`, `[[:alpha:]]`, `[[:alnum:]]`,
    `[[:blank:]]`) are ASCII-only in the regex dialect the program uses. */
module CharClass {

  /** `char::is_ascii`: code point below 0x80. */
  predicate IsAscii(c: char) {
    c as int < 0x80
  }

  /** `[[:alpha:]]` */
  predicate IsAsciiAlpha(c: char) {
    ('a' <= c <= 'z') || ('A' <= c <= 'Z')
  }

  predicate IsAsciiDigit(c: char) {
    '0' <= c <= '9'
  }

  /** `[[:alnum:]]` */
  predicate IsAsciiAlnum(c: char) {
    IsAsciiAlpha(c) || IsAsciiDigit(c)
  }

  /** `[[:alnum:]-]`: the character class of keys and encodings. */
  predicate IsAlnumOrDash(c: char) {
    IsAsciiAlnum(c) || c == '-'
  }

  /** `[[:print:]]`: printable ASCII, 0x20 through 0x7E. */
  predicate IsAsciiPrint(c: char) {
    ' ' <= c <= '~'
  }

  /** `[[:blank:]]`: space or horizontal tab. */
  predicate IsBlank(c: char) {
    c == ' ' || c == '\t'
  }

  /** `char::is_ascii_whitespace`: space, tab, line feed, form feed and
      carriage return (but not the vertical tab). */
  predicate IsAsciiWhitespace(c: char) {
    c == ' ' || c == '\t' || c == '\n' || c == '\U{0C}' || c == '\r'
  }

  /** `char::is_control`: general category Cc, that is U+0000..U+001F and
      U+007F..U+009F. */
  predicate IsControl(c: char) {
    c as int <= 0x1F || (0x7F <= c as int <= 0x9F)
  }

  /** Every character of `s` is in the class `p`. */
  predicate All(s: string, p: char -> bool) {
    forall i :: 0 <= i < |s| ==> p(s[i])
  }

  /** Length of the longest prefix of `s` whose characters are all in `p`;
      equivalently, the index of the first character outside `p`. This is what a
      greedy `[class]*` consumes. */
  function PrefixLen(s: string, p: char -> bool): (n: nat)
    ensures n <= |s|
    ensures All(s[..n], p)
    ensures n < |s| ==> !p(s[n])
  {
    if |s| == 0 || !p(s[0]) then 0 else 1 + PrefixLen(s[1..], p)
  }

  /** A greedy run over `a` stops exactly where `a` ends when `a` is all in
      `p` and `b` does not start with a character of `p`. */
  lemma {:induction false} PrefixLenConcat(a: string, b: string, p: char -> bool)
    requires All(a, p)
    requires |b| == 0 || !p(b[0])
    ensures PrefixLen(a + b, p) == |a|
  {
    if |a| > 0 {
      assert (a + b)[1..] == a[1..] + b;
      PrefixLenConcat(a[1..], b, p);
    } else {
      assert a + b == b;
    }
  }

  /** A greedy run stops at or before the first character outside `p`. */
  lemma PrefixLenStops(s: string, p: char -> bool, k: nat)
    requires k < |s| && !p(s[k])
    ensures PrefixLen(s, p) <= k
  {
    var n := PrefixLen(s, p);
    forall j | 0 <= j < n ensures p(s[j]) {
      assert s[..n][j] == s[j];
    }
  }

  /** The index of the first character outside `p` is what a greedy run
      consumes. */
  lemma PrefixLenAt(s: string, p: char -> bool, k: nat)
    requires k < |s| && !p(s[k])
    requires forall j :: 0 <= j < k ==> p(s[j])
    ensures PrefixLen(s, p) == k
  {
    PrefixLenStops(s, p, k);
  }

  /** `^[class]+$`: the anchored one-or-more match of a character class, as
      the validators' regular expressions perform it. */
  function MatchesPlus(s: string, p: char -> bool): (b: bool)
    ensures b <==> |s| > 0 && All(s, p)
  {
    |s| > 0 && PrefixLen(s, p) == |s|
  }
}
