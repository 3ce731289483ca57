/**
 * The word list of `loadWords`: the first pack's words of the catalog, each
 * trimmed and then upper-cased. Fetching the catalog is I/O and arrives as a value.
 */
module Words {
  import opened Wrappers

  /** One pack of the catalog; `words` is None when the entry is missing (or falsy). */
  datatype Pack = Pack(words: Option<seq<string>>)

  /** `data?.packs?.[0]?.words || []`: only the first pack is read; any missing link gives []. */
  function FirstPackWords(packs: Option<seq<Pack>>): seq<string> {
    match packs
    case None => []
    case Some(ps) => if |ps| == 0 then [] else ps[0].words.GetOr([])
  }

  /** The characters `String.prototype.trim` strips: ECMAScript WhiteSpace and LineTerminator. */
  predicate IsWhitespace(c: char) {
    || c == ' ' || c == '\t' || c == '\n' || c == '\r'
    || c == '\U{000B}' || c == '\U{000C}' || c == '\U{00A0}' || c == '\U{1680}'
    || ('\U{2000}' <= c <= '\U{200A}')
    || c == '\U{2028}' || c == '\U{2029}' || c == '\U{202F}' || c == '\U{205F}'
    || c == '\U{3000}' || c == '\U{FEFF}'
  }

  /** Drops leading whitespace: what is left is a suffix that does not start with whitespace. */
  function TrimStart(s: string): (r: string)
    ensures |r| <= |s| && r == s[|s| - |r|..]
    ensures forall k | 0 <= k < |s| - |r| :: IsWhitespace(s[k])
    ensures |r| > 0 ==> !IsWhitespace(r[0])
  {
    if |s| > 0 && IsWhitespace(s[0]) then TrimStart(s[1..]) else s
  }

  /** Drops trailing whitespace: what is left is a prefix that does not end with whitespace. */
  function TrimEnd(s: string): (r: string)
    ensures |r| <= |s| && r == s[..|r|]
    ensures forall k | |r| <= k < |s| :: IsWhitespace(s[k])
    ensures |r| > 0 ==> !IsWhitespace(r[|r| - 1])
  {
    if |s| > 0 && IsWhitespace(s[|s| - 1]) then TrimEnd(s[..|s| - 1]) else s
  }

  function Trim(s: string): string {
    TrimEnd(TrimStart(s))
  }

  /** `toUpperCase` on one character, for the ASCII letters. */
  function UpperChar(c: char): char {
    if 'a' <= c <= 'z' then (c as int - 32) as char else c
  }

  function ToUpper(s: string): string {
    seq(|s|, k requires 0 <= k < |s| => UpperChar(s[k]))
  }

  /** `String(w).trim().toUpperCase()`. */
  function NormalizeWord(w: string): string {
    ToUpper(Trim(w))
  }

  /** The `.map(...)` over the first pack's words. */
  function NormalizeAll(ws: seq<string>): seq<string> {
    seq(|ws|, k requires 0 <= k < |ws| => NormalizeWord(ws[k]))
  }

  /** A word as `loadWords` leaves it: no whitespace at either end, no lower-case ASCII letter. */
  predicate IsNormalized(w: string) {
    && (|w| > 0 ==> !IsWhitespace(w[0]) && !IsWhitespace(w[|w| - 1]))
    && forall k | 0 <= k < |w| :: !('a' <= w[k] <= 'z')
  }

  /** Upper-casing a character neither creates nor removes whitespace, never yields a
      lower-case ASCII letter, and is idempotent. */
  lemma UpperCharFacts(c: char)
    ensures IsWhitespace(UpperChar(c)) <==> IsWhitespace(c)
    ensures !('a' <= UpperChar(c) <= 'z')
    ensures UpperChar(UpperChar(c)) == UpperChar(c)
  {
  }

  /** Trimming keeps a slice of the input, cutting only whitespace, and leaves no whitespace at
      either end. */
  lemma TrimmedSlice(w: string) returns (lo: nat, hi: nat)
    ensures lo <= hi <= |w| && Trim(w) == w[lo..hi]
    ensures forall k | 0 <= k < lo :: IsWhitespace(w[k])
    ensures forall k | hi <= k < |w| :: IsWhitespace(w[k])
    ensures |Trim(w)| > 0 ==> !IsWhitespace(Trim(w)[0]) && !IsWhitespace(Trim(w)[|Trim(w)| - 1])
  {
    var t := TrimStart(w);
    lo := |w| - |t|;
    var u := TrimEnd(t);
    hi := lo + |u|;
    assert u == w[lo..hi];
  }

  /** Upper-casing a string with no whitespace at its ends gives a normalised word. */
  lemma UpperOfTrimmed(t: string)
    requires |t| > 0 ==> !IsWhitespace(t[0]) && !IsWhitespace(t[|t| - 1])
    ensures IsNormalized(ToUpper(t))
  {
    if |t| > 0 {
      UpperCharFacts(t[0]);
      UpperCharFacts(t[|t| - 1]);
    }
    forall k | 0 <= k < |t|
      ensures !('a' <= ToUpper(t)[k] <= 'z')
    {
      UpperCharFacts(t[k]);
    }
  }

  /** A normalised word is trimmed and upper-case, and it is the upper-casing of a slice of
      the input from which only whitespace was cut at both ends. */
  lemma NormalizeWordShape(w: string)
    ensures IsNormalized(NormalizeWord(w))
    ensures exists lo, hi | 0 <= lo <= hi <= |w| ::
      && NormalizeWord(w) == ToUpper(w[lo..hi])
      && (forall k | 0 <= k < lo :: IsWhitespace(w[k]))
      && (forall k | hi <= k < |w| :: IsWhitespace(w[k]))
  {
    var lo, hi := TrimmedSlice(w);
    UpperOfTrimmed(Trim(w));
    assert NormalizeWord(w) == ToUpper(w[lo..hi]);
  }

  /** A normalised word is a fixed point of the normalisation. */
  lemma NormalizedIsFixed(r: string)
    requires IsNormalized(r)
    ensures NormalizeWord(r) == r
  {
  }

  /** Normalising twice is normalising once. */
  lemma NormalizeIdempotent(w: string)
    ensures NormalizeWord(NormalizeWord(w)) == NormalizeWord(w)
  {
    NormalizeWordShape(w);
    NormalizedIsFixed(NormalizeWord(w));
  }

  /** Every word of the normalised list is normalised, and the list keeps the pack's length. */
  lemma NormalizeAllNormalized(ws: seq<string>)
    ensures |NormalizeAll(ws)| == |ws|
    ensures forall k | 0 <= k < |ws| :: IsNormalized(NormalizeAll(ws)[k])
    ensures forall w | w in NormalizeAll(ws) :: IsNormalized(w)
  {
  }
}
