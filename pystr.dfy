/**
 * The two Python string methods the answer checker relies on, `str.strip()` and
 * `str.lower()`, restricted to ASCII: whitespace is the ASCII characters for which
 * Python's `str.isspace()` holds, and lower-casing maps 'A'..'Z' to 'a'..'z'.
 */
module PyStr {

  /** ASCII characters that `str.isspace()` accepts: \t \n \v \f \r, \x1c..\x1f and space. */
  predicate IsSpace(c: char) {
    c == ' ' || 9 <= c as int <= 13 || 28 <= c as int <= 31
  }

  predicate IsUpper(c: char) {
    'A' <= c <= 'Z'
  }

  function LowerChar(c: char): char {
    if IsUpper(c) then (c as int + 32) as char else c
  }

  /** Leading whitespace removed. */
  function LStrip(s: string): (r: string)
    ensures |r| <= |s| && r == s[|s| - |r|..]
    ensures forall k :: 0 <= k < |s| - |r| ==> IsSpace(s[k])
    ensures r == [] || !IsSpace(r[0])
  {
    if s != [] && IsSpace(s[0]) then LStrip(s[1..]) else s
  }

  /** Trailing whitespace removed. */
  function RStrip(s: string): (r: string)
    ensures |r| <= |s| && r == s[..|r|]
    ensures forall k :: |r| <= k < |s| ==> IsSpace(s[k])
    ensures r == [] || !IsSpace(r[|r| - 1])
  {
    if s != [] && IsSpace(s[|s| - 1]) then RStrip(s[..|s| - 1]) else s
  }

  /** `s.strip()`: the slice of `s` left after removing whitespace at both ends. */
  function Strip(s: string): (r: string)
    ensures exists a, b :: 0 <= a <= b <= |s| && r == s[a..b]
                          && (forall k :: 0 <= k < a ==> IsSpace(s[k]))
                          && (forall k :: b <= k < |s| ==> IsSpace(s[k]))
    ensures r == [] || (!IsSpace(r[0]) && !IsSpace(r[|r| - 1]))
  {
    var l := LStrip(s);
    var r := RStrip(l);
    var a := |s| - |l|;
    assert r == s[a..a + |r|];
    r
  }

  /** `s.lower()`: every upper-case letter replaced by its lower-case form, all else kept. */
  function Lower(s: string): (r: string)
    ensures |r| == |s|
    ensures forall k :: 0 <= k < |s| ==> r[k] == LowerChar(s[k])
    ensures forall k :: 0 <= k < |r| ==> !IsUpper(r[k])
  {
    if s == [] then [] else [LowerChar(s[0])] + Lower(s[1..])
  }

  /** The comparison key for answers: `s.strip().lower()`. */
  function Normalize(s: string): string {
    Lower(Strip(s))
  }

  /** A string that is already stripped is left unchanged by `Strip`. */
  lemma StripOfStripped(s: string)
    requires s == [] || (!IsSpace(s[0]) && !IsSpace(s[|s| - 1]))
    ensures Strip(s) == s
  {
  }

  /** Lower-casing never turns whitespace into something else, nor anything else into whitespace. */
  lemma LowerCharSpace(c: char)
    ensures IsSpace(LowerChar(c)) <==> IsSpace(c)
  {
  }

  /** What normalised text looks like: no whitespace at either end and no upper-case letter. */
  predicate NormalForm(s: string) {
    && (s == [] || (!IsSpace(s[0]) && !IsSpace(s[|s| - 1])))
    && forall k :: 0 <= k < |s| ==> !IsUpper(s[k])
  }

  /** `Normalize` always yields text in normal form. */
  lemma NormalizeNormalForm(s: string)
    ensures NormalForm(Normalize(s))
  {
    var t := Strip(s);
    var n := Lower(t);
    assert n == Normalize(s);
    if n != [] {
      assert n[0] == LowerChar(t[0]) && n[|n| - 1] == LowerChar(t[|t| - 1]);
      LowerCharSpace(t[0]);
      LowerCharSpace(t[|t| - 1]);
    }
  }

  /** Text in normal form is its own normalisation. */
  lemma NormalFormFixed(s: string)
    requires NormalForm(s)
    ensures Normalize(s) == s
  {
    StripOfStripped(s);
    var l := Lower(s);
    assert l == s;
  }

  /**
   * Normalising is idempotent: the normalised stored answer that the simple server
   * returns as `expected` normalises to itself.
   */
  lemma NormalizeIdempotent(s: string)
    ensures Normalize(Normalize(s)) == Normalize(s)
  {
    NormalizeNormalForm(s);
    NormalFormFixed(Normalize(s));
  }

  /** `LStrip` drops one leading whitespace character and carries on. */
  lemma LStripSpace(c: char, s: string)
    requires IsSpace(c)
    ensures LStrip([c] + s) == LStrip(s)
  {
    assert ([c] + s)[1..] == s;
  }

  /** `RStrip` drops one trailing whitespace character and carries on. */
  lemma RStripSpace(s: string, c: char)
    requires IsSpace(c)
    ensures RStrip(s + [c]) == RStrip(s)
  {
    assert (s + [c])[..|s|] == s;
  }

  /** Case and surrounding whitespace do not matter to the comparison. */
  lemma NormalizeExample()
    ensures Normalize("  HeLLo ") == "hello"
  {
    var word := "HeLLo";
    assert "  HeLLo " == [' '] + ([' '] + (word + [' ']));
    LStripSpace(' ', [' '] + (word + [' ']));
    LStripSpace(' ', word + [' ']);
    assert LStrip(word + [' ']) == word + [' '];
    RStripSpace(word, ' ');
    assert RStrip(word) == word;
    assert Strip("  HeLLo ") == word;
    LowerWord(word);
  }

  /** The lower-casing step of `NormalizeExample`: `"HeLLo"` lower-cases to `"hello"`. */
  lemma LowerWord(s: string)
    requires s == "HeLLo"
    ensures Lower(s) == "hello"
  {
    var l := Lower(s);
    assert |l| == 5;
    assert l[0] == 'h' && l[1] == 'e' && l[2] == 'l' && l[3] == 'l' && l[4] == 'o';
  }
}
