/**
 * Text clean-up applied to the description column of every row: the field is
 * trimmed as java.lang.String.trim() does, then every leading and every
 * trailing double quote is removed as StringUtils.stripStart / stripEnd do
 * with the character set "\"". The result is not trimmed again.
 */
module Normalize {

  /** String.trim() removes every character whose code is at most U+0020. */
  predicate IsTrimmable(c: char) { c <= ' ' }

  predicate IsQuote(c: char) { c == '"' }

  /** Removes the longest prefix of s made only of characters in the strip set. */
  function StripStart(s: string, strip: char -> bool): string
    decreases |s|
  {
    if s != [] && strip(s[0]) then StripStart(s[1..], strip) else s
  }

  /** What StripStart keeps is a suffix of s that does not begin with a stripped character, and all it removes is stripped. */
  lemma {:induction false} StripStartSpec(s: string, strip: char -> bool)
    ensures var r := StripStart(s, strip);
      && |r| <= |s| && r == s[|s| - |r|..]
      && (forall k :: 0 <= k < |s| - |r| ==> strip(s[k]))
      && (r == [] || !strip(r[0]))
    decreases |s|
  {
    if s != [] && strip(s[0]) {
      StripStartSpec(s[1..], strip);
      var r := StripStart(s, strip);
      forall k | 1 <= k < |s| - |r| ensures strip(s[k]) {
        assert s[k] == s[1..][k - 1];
      }
    }
  }

  /** Removes the longest suffix of s made only of characters in the strip set. */
  function StripEnd(s: string, strip: char -> bool): string
    decreases |s|
  {
    if s != [] && strip(s[|s| - 1]) then StripEnd(s[..|s| - 1], strip) else s
  }

  /** What StripEnd keeps is a prefix of s that does not end with a stripped character, and all it removes is stripped. */
  lemma {:induction false} StripEndSpec(s: string, strip: char -> bool)
    ensures var r := StripEnd(s, strip);
      && |r| <= |s| && r == s[..|r|]
      && (forall k :: |r| <= k < |s| ==> strip(s[k]))
      && (r == [] || !strip(r[|r| - 1]))
    decreases |s|
  {
    if s != [] && strip(s[|s| - 1]) {
      StripEndSpec(s[..|s| - 1], strip);
      var r := StripEnd(s, strip);
      forall k | |r| <= k < |s| - 1 ensures strip(s[k]) {
        assert s[k] == s[..|s| - 1][k];
      }
    }
  }

  /** Both ends stripped with the same set. */
  lemma StripBothSpec(s: string, strip: char -> bool)
    ensures var r := StripEnd(StripStart(s, strip), strip);
      r == [] || (!strip(r[0]) && !strip(r[|r| - 1]))
  {
    var a := StripStart(s, strip);
    StripStartSpec(s, strip);
    StripEndSpec(a, strip);
  }

  /** String.trim(). */
  function Trim(s: string): (r: string)
    ensures r == [] || (!IsTrimmable(r[0]) && !IsTrimmable(r[|r| - 1]))
  {
    StripBothSpec(s, IsTrimmable);
    StripEnd(StripStart(s, IsTrimmable), IsTrimmable)
  }

  /** stripEnd(stripStart(s, "\""), "\""): all quote layers go, on each side independently. */
  function StripQuotes(s: string): (r: string)
    ensures r == [] || (!IsQuote(r[0]) && !IsQuote(r[|r| - 1]))
  {
    StripBothSpec(s, IsQuote);
    StripEnd(StripStart(s, IsQuote), IsQuote)
  }

  /** The description key of a row (LoadNadac.java lines 87-88). */
  function NormalizeDescription(raw: string): (d: string)
    ensures d == [] || (d[0] != '"' && d[|d| - 1] != '"')
  {
    StripQuotes(Trim(raw))
  }

  /** Stripping quotes a second time changes nothing. */
  lemma StripQuotesIdempotent(s: string)
    ensures StripQuotes(StripQuotes(s)) == StripQuotes(s)
  {
    var r := StripQuotes(s);
    var a := StripStart(r, IsQuote);
    StripStartSpec(r, IsQuote);
    assert r == [] || !IsQuote(r[0]);
    assert a == r;
    var b := StripEnd(a, IsQuote);
    StripEndSpec(a, IsQuote);
    assert a == [] || !IsQuote(a[|a| - 1]);
    assert b == a;
  }

  /** A normalised description is a fixed point of the quote strip. */
  lemma NormalizeIdempotent(raw: string)
    ensures StripQuotes(NormalizeDescription(raw)) == NormalizeDescription(raw)
  {
    StripQuotesIdempotent(Trim(raw));
  }

  /** A trimmed field with no quote at either end is kept as it is. */
  lemma NormalizeUnquoted(raw: string)
    requires Trim(raw) == [] || (Trim(raw)[0] != '"' && Trim(raw)[|Trim(raw)| - 1] != '"')
    ensures NormalizeDescription(raw) == Trim(raw)
  {
    var t := Trim(raw);
    NormalizeUnique(raw, 0, |t|);
  }

  /**
   * Reference characterisation of stripping both ends: if s splits as stripped
   * characters, a middle part, stripped characters, and the middle part neither
   * starts nor ends with a stripped character, the result is that middle part.
   */
  lemma {:induction false} StripBothUnique(s: string, strip: char -> bool, i: nat, j: nat)
    requires i <= j <= |s|
    requires forall k :: 0 <= k < i ==> strip(s[k])
    requires forall k :: j <= k < |s| ==> strip(s[k])
    requires i == j || (!strip(s[i]) && !strip(s[j - 1]))
    ensures StripEnd(StripStart(s, strip), strip) == s[i..j]
  {
    var a := StripStart(s, strip);
    var n := |s| - |a|;
    StripStartSpec(s, strip);
    assert a != [] ==> a[0] == s[n];
    if i == j {
      assert forall k :: 0 <= k < |s| ==> strip(s[k]);
      assert a == [];
    } else {
      assert n <= i;
      assert i <= n;
      assert a == s[i..];
      var b := StripEnd(a, strip);
      StripEndSpec(a, strip);
      assert b != [] ==> b[|b| - 1] == s[i + |b| - 1];
      assert !strip(a[j - i - 1]);
      assert |b| == j - i;
      assert b == s[i..j];
    }
  }

  /**
   * String.trim() characterised: if s is blanks (characters up to U+0020), a
   * middle part that starts and ends with a non-blank, then blanks, the result
   * is exactly that middle part.
   */
  lemma TrimUnique(s: string, i: nat, j: nat)
    requires i <= j <= |s|
    requires forall k :: 0 <= k < i ==> s[k] <= ' '
    requires forall k :: j <= k < |s| ==> s[k] <= ' '
    requires i == j || (s[i] > ' ' && s[j - 1] > ' ')
    ensures Trim(s) == s[i..j]
  {
    StripBothUnique(s, IsTrimmable, i, j);
  }

  /**
   * Reference characterisation: if t = Trim(raw) splits as quotes, a middle
   * part, quotes, and the middle part neither starts nor ends with a quote,
   * then the normalised description is exactly that middle part.
   */
  lemma NormalizeUnique(raw: string, i: nat, j: nat)
    requires i <= j <= |Trim(raw)|
    requires forall k :: 0 <= k < i ==> Trim(raw)[k] == '"'
    requires forall k :: j <= k < |Trim(raw)| ==> Trim(raw)[k] == '"'
    requires i == j || (Trim(raw)[i] != '"' && Trim(raw)[j - 1] != '"')
    ensures NormalizeDescription(raw) == Trim(raw)[i..j]
  {
    StripBothUnique(Trim(raw), IsQuote, i, j);
  }

  /** A description wrapped in one pair of quotes loses them. */
  lemma QuotedDescriptionExample()
    ensures NormalizeDescription("\"ASPIRIN 325MG\"") == "ASPIRIN 325MG"
  {
    var raw := "\"ASPIRIN 325MG\"";
    assert StripStart(raw, IsTrimmable) == raw;
    assert Trim(raw) == raw;
    NormalizeUnique(raw, 1, |raw| - 1);
  }

  /** Every quote layer goes, not only the outermost pair. */
  lemma AllQuoteLayersExample()
    ensures NormalizeDescription("\"\"ASPIRIN\"\"") == "ASPIRIN"
  {
    var raw := "\"\"ASPIRIN\"\"";
    assert StripStart(raw, IsTrimmable) == raw;
    assert Trim(raw) == raw;
    NormalizeUnique(raw, 2, |raw| - 2);
  }

  /** Blanks inside the quotes survive: the stripped text is not trimmed again. */
  lemma InnerBlanksExample()
    ensures NormalizeDescription("\" ASPIRIN \"") == " ASPIRIN "
  {
    var raw := "\" ASPIRIN \"";
    assert StripStart(raw, IsTrimmable) == raw;
    assert Trim(raw) == raw;
    NormalizeUnique(raw, 1, |raw| - 1);
  }
}
