/**
 * `markdown_to_html`: five global regular-expression substitutions applied in a
 * fixed order, each a single left-to-right, leftmost, non-overlapping scan over the
 * output of the previous one.
 *
 *   1. fenced code block (DOTALL), language tag and body; the body is HTML-escaped
 *   2. double-asterisk span   -> <strong>
 *   3. single-asterisk span   -> <em>
 *   4. backtick span          -> <code>
 *   5. newline                -> <br>
 *
 * None of the patterns has an anchor or a look-behind, so trying a pattern at
 * position i of s is the same as trying it at the start of s[i..]; every pass is
 * therefore written as a recursion on the remaining suffix.
 */
module Markdown {
  import opened Wrappers

  /** The delimiter `d` occurs in `s` starting at index `i`. */
  predicate DelimAt(s: string, i: nat, d: string) {
    i + |d| <= |s| && s[i..i + |d|] == d
  }

  /** No newline in s[lo..hi]. */
  predicate NoNewline(s: string, lo: nat, hi: nat)
    requires lo <= hi <= |s|
  {
    forall m :: lo <= m < hi ==> s[m] != '\n'
  }

  /** `d` starts nowhere in `s` before index `n`. */
  predicate NoDelimBefore(s: string, d: string, n: nat) {
    forall m :: 0 <= m < n ==> !DelimAt(s, m, d)
  }

  // ---------------------------------------------------------------------------
  // The lazy group `(.*?)` followed by a closing delimiter

  /**
   * `(.*?)d` tried from index `k`: the group grows one character at a time and
   * stops at the first index where `d` occurs. Without DOTALL, `.` does not
   * match a newline, so a newline before the first `d` makes the attempt fail.
   */
  function LazyClose(s: string, d: string, k: nat, dotAll: bool): (r: Option<nat>)
    requires k <= |s|
    decreases |s| - k
    ensures r.Some? ==> k <= r.value && r.value + |d| <= |s|
  {
    if DelimAt(s, k, d) then Some(k)
    else if k == |s| || (!dotAll && s[k] == '\n') then None
    else LazyClose(s, d, k + 1, dotAll)
  }

  /**
   * What the lazy group finds: the first delimiter at or after `k` (on the same
   * line unless DOTALL); when it finds nothing, no delimiter is reachable.
   */
  lemma {:induction false} LazyCloseFirst(s: string, d: string, k: nat, dotAll: bool)
    requires k <= |s|
    decreases |s| - k
    ensures var r := LazyClose(s, d, k, dotAll);
            && (r.Some? ==> DelimAt(s, r.value, d))
            && (r.Some? ==> forall m :: k <= m < r.value ==> !DelimAt(s, m, d))
            && (r.Some? && !dotAll ==> NoNewline(s, k, r.value))
            && (r.None? ==> forall j :: k <= j <= |s| && (dotAll || NoNewline(s, k, j)) ==> !DelimAt(s, j, d))
  {
    if !DelimAt(s, k, d) && !(k == |s| || (!dotAll && s[k] == '\n')) {
      LazyCloseFirst(s, d, k + 1, dotAll);
    }
  }

  /** Conversely, the lazy group closes at the first reachable delimiter. */
  lemma {:induction false} LazyCloseAt(s: string, d: string, k: nat, j: nat, dotAll: bool)
    requires k <= j && DelimAt(s, j, d)
    requires forall m :: k <= m < j ==> !DelimAt(s, m, d)
    requires !dotAll ==> NoNewline(s, k, j)
    decreases j - k
    ensures LazyClose(s, d, k, dotAll) == Some(j)
  {
    if k < j {
      assert !DelimAt(s, k, d);
      assert !dotAll ==> s[k] != '\n';
      LazyCloseAt(s, d, k + 1, j, dotAll);
    }
  }

  /** A delimiter-free stretch stays delimiter-free inside a longer text. */
  lemma ShiftNoDelim(p: string, body: string, d: string, rest: string)
    requires NoDelimBefore(body + d, d, |body|)
    ensures forall m :: |p| <= m < |p| + |body| ==> !DelimAt(p + body + d + rest, m, d)
  {
    var s := p + body + d + rest;
    forall m | |p| <= m < |p| + |body| ensures !DelimAt(s, m, d) {
      var i := m - |p|;
      assert !DelimAt(body + d, i, d);
      if m + |d| <= |s| {
        assert s[m..m + |d|] == (body + d)[i..i + |d|];
      }
    }
  }

  /** A character absent from `s` rules out every delimiter starting with it. */
  lemma NoCharNoDelim(s: string, d: string)
    requires d != [] && d[0] !in s
    ensures NoDelimBefore(s, d, |s|)
  {
    forall m | 0 <= m < |s| ensures !DelimAt(s, m, d) {
      if m + |d| <= |s| {
        assert s[m..m + |d|][0] == s[m];
      }
    }
  }

  /** The same, for a body followed by its closing delimiter. */
  lemma NoCharNoDelimBefore(body: string, d: string)
    requires d != [] && d[0] !in body
    ensures NoDelimBefore(body + d, d, |body|)
  {
    forall m | 0 <= m < |body| ensures !DelimAt(body + d, m, d) {
      if m + |d| <= |body + d| {
        assert (body + d)[m..m + |d|][0] == body[m];
      }
    }
  }

  // ---------------------------------------------------------------------------
  // Passes 2-4: delimited spans that cannot cross a line

  /**
   * One substitution pass of `d(.*?)d` without DOTALL: a span opens at the
   * leftmost `d`, closes at the next `d` on the same line, and scanning resumes
   * after the closing delimiter.
   */
  function SpanPass(s: string, d: string, open: string, close: string): string
    requires d != []
    decreases |s|
  {
    if s == [] then []
    else if DelimAt(s, 0, d) && LazyClose(s, d, |d|, false).Some? then
      var j := LazyClose(s, d, |d|, false).value;
      open + s[|d|..j] + close + SpanPass(s[j + |d|..], d, open, close)
    else
      [s[0]] + SpanPass(s[1..], d, open, close)
  }

  /**
   * The leftmost match is taken, and its body ends at the first closing
   * delimiter: a text that starts with `d + body + d`, where the body holds no
   * newline and no earlier `d`, becomes `open + body + close` followed by the
   * pass over the rest.
   */
  lemma SpanPassMatch(d: string, body: string, rest: string, open: string, close: string)
    requires d != []
    requires '\n' !in body
    requires NoDelimBefore(body + d, d, |body|)
    ensures SpanPass(d + body + d + rest, d, open, close)
            == open + body + close + SpanPass(rest, d, open, close)
  {
    var s := d + body + d + rest;
    var n := |d|;
    var j := n + |body|;
    assert DelimAt(s, 0, d) by { assert s[0..n] == d; }
    assert DelimAt(s, j, d) by { assert s[j..j + n] == d; }
    assert NoNewline(s, n, j) by {
      forall m | n <= m < j ensures s[m] != '\n' {
        assert s[m] == body[m - n];
      }
    }
    ShiftNoDelim(d, body, d, rest);
    LazyCloseAt(s, d, n, j, false);
    assert s[n..j] == body;
    assert s[j + n..] == rest;
  }

  /** A first character at which no delimiter starts is copied. */
  lemma SpanPassStep(s: string, d: string, open: string, close: string)
    requires d != [] && s != [] && !DelimAt(s, 0, d)
    ensures SpanPass(s, d, open, close) == [s[0]] + SpanPass(s[1..], d, open, close)
  {
  }

  /** A delimiter that opens a span which cannot close is copied as text. */
  lemma SpanPassUnclosed(s: string, d: string, open: string, close: string)
    requires d != [] && |d| <= |s| && LazyClose(s, d, |d|, false).None?
    ensures SpanPass(s, d, open, close) == [s[0]] + SpanPass(s[1..], d, open, close)
  {
  }

  /**
   * Text with no character that could open a span is copied unchanged, and the
   * pass continues on what follows it.
   */
  lemma {:induction false} SpanPassCopy(p: string, rest: string, d: string, open: string, close: string)
    requires d != []
    requires d[0] !in p
    ensures SpanPass(p + rest, d, open, close) == p + SpanPass(rest, d, open, close)
  {
    if p != [] {
      var s := p + rest;
      assert !DelimAt(s, 0, d) by {
        if |d| <= |s| { assert s[0..|d|][0] == p[0]; }
      }
      SpanPassStep(s, d, open, close);
      assert s[1..] == p[1..] + rest;
      SpanPassCopy(p[1..], rest, d, open, close);
    } else {
      assert p + rest == rest;
    }
  }

  /** Text in which the delimiter never occurs is left unchanged. */
  lemma {:induction false} SpanPassUnchanged(s: string, d: string, open: string, close: string)
    requires d != []
    requires NoDelimBefore(s, d, |s|)
    ensures SpanPass(s, d, open, close) == s
    decreases |s|
  {
    if s != [] {
      assert !DelimAt(s, 0, d);
      assert NoDelimBefore(s[1..], d, |s| - 1) by {
        forall m | 0 <= m < |s| - 1 ensures !DelimAt(s[1..], m, d) {
          assert !DelimAt(s, m + 1, d);
          if m + |d| <= |s| - 1 {
            assert s[1..][m..m + |d|] == s[m + 1..m + 1 + |d|];
          }
        }
      }
      SpanPassUnchanged(s[1..], d, open, close);
    }
  }

  // ---------------------------------------------------------------------------
  // Pass 1: fenced code blocks

  const Fence: string := "```"

  /** Python's `\w`, restricted to ASCII. */
  predicate IsWordChar(c: char) {
    'a' <= c <= 'z' || 'A' <= c <= 'Z' || '0' <= c <= '9' || c == '_'
  }

  /** End of the greedy `\w*` run starting at `k`. */
  function WordRunEnd(s: string, k: nat): (e: nat)
    requires k <= |s|
    decreases |s| - k
    ensures k <= e <= |s|
  {
    if k < |s| && IsWordChar(s[k]) then WordRunEnd(s, k + 1) else k
  }

  /** The run is maximal: word characters up to its end, and none at its end. */
  lemma {:induction false} WordRunEndMaximal(s: string, k: nat)
    requires k <= |s|
    decreases |s| - k
    ensures var e := WordRunEnd(s, k);
            && (forall m :: k <= m < e ==> IsWordChar(s[m]))
            && (e < |s| ==> !IsWordChar(s[e]))
  {
    if k < |s| && IsWordChar(s[k]) {
      WordRunEndMaximal(s, k + 1);
    }
  }

  /** A run of word characters ended by a non-word character is found exactly. */
  lemma {:induction false} WordRunEndAt(s: string, k: nat, e: nat)
    requires k <= e < |s|
    requires forall m :: k <= m < e ==> IsWordChar(s[m])
    requires !IsWordChar(s[e])
    decreases e - k
    ensures WordRunEnd(s, k) == e
  {
    if k < e {
      WordRunEndAt(s, k + 1, e);
    }
  }

  /** The two groups of a code-block match and the length of the matched text. */
  datatype FenceMatch = FenceMatch(language: string, code: string, length: nat)

  /**
   * The code-block pattern with DOTALL, tried at the start of `s`. A shorter
   * `\w*` never helps (the character after it is a word character, not a
   * newline), so the language is the whole word run and must be followed by a
   * newline; the code runs up to the first closing fence, across lines.
   */
  function MatchFence(s: string): (m: Option<FenceMatch>)
    ensures m.Some? ==> 3 <= m.value.length <= |s|
  {
    if !DelimAt(s, 0, Fence) then None
    else
      var e := WordRunEnd(s, 3);
      if e < |s| && s[e] == '\n' then
        match LazyClose(s, Fence, e + 1, true)
        case Some(j) => Some(FenceMatch(s[3..e], s[e + 1..j], j + 3))
        case None => None
      else None
  }

  /**
   * What a match consists of: the opening fence, a language of word characters,
   * a newline, a code body in which no fence starts, and the closing fence.
   */
  lemma MatchFenceGroups(s: string)
    requires MatchFence(s).Some?
    ensures var m := MatchFence(s).value;
            && s == Fence + m.language + "\n" + m.code + Fence + s[m.length..]
            && (forall k :: 0 <= k < |m.language| ==> IsWordChar(m.language[k]))
            && NoDelimBefore(m.code + Fence, Fence, |m.code|)
  {
    var e := WordRunEnd(s, 3);
    WordRunEndMaximal(s, 3);
    var j := LazyClose(s, Fence, e + 1, true).value;
    LazyCloseFirst(s, Fence, e + 1, true);
    assert s[0..3] == Fence;
    assert s[j..j + 3] == Fence;
    NoDelimSlice(s, Fence, e + 1, j);
    FenceSlices(s, e, j);
  }

  /** A stretch of `s` in which no delimiter starts, cut out with the delimiter that ends it. */
  lemma NoDelimSlice(s: string, d: string, lo: nat, hi: nat)
    requires lo <= hi && DelimAt(s, hi, d)
    requires forall m :: lo <= m < hi ==> !DelimAt(s, m, d)
    ensures NoDelimBefore(s[lo..hi] + d, d, hi - lo)
  {
    var t := s[lo..hi] + d;
    assert s[lo..hi + |d|] == s[lo..hi] + s[hi..hi + |d|];
    assert t == s[lo..hi + |d|];
    forall m | 0 <= m < hi - lo ensures !DelimAt(t, m, d) {
      assert !DelimAt(s, lo + m, d);
      if m + |d| <= |t| {
        SliceOfSlice(s, lo, hi + |d|, m, m + |d|);
      }
    }
  }

  lemma SliceOfSlice(s: string, lo: nat, hi: nat, m: nat, n: nat)
    requires lo <= hi <= |s| && m <= n <= hi - lo
    ensures s[lo..hi][m..n] == s[lo + m..lo + n]
  {
    assert |s[lo..hi][m..n]| == n - m;
    forall i | 0 <= i < n - m ensures s[lo..hi][m..n][i] == s[lo + m..lo + n][i] {
      assert s[lo..hi][m..n][i] == s[lo..hi][m + i] == s[lo + m + i];
    }
  }

  /** A text cut at the fences and at the newline after the language tag. */
  lemma FenceSlices(s: string, e: nat, j: nat)
    requires 3 <= e < j && j + 3 <= |s|
    requires s[0..3] == Fence && s[e] == '\n' && s[j..j + 3] == Fence
    ensures s == Fence + s[3..e] + "\n" + s[e + 1..j] + Fence + s[j + 3..]
  {
    var r := Fence + s[3..e] + "\n" + s[e + 1..j] + Fence + s[j + 3..];
    assert |r| == |s|;
    forall m | 0 <= m < |s| ensures r[m] == s[m] {
      if m < 3 {
        assert r[m] == Fence[m] == s[0..3][m];
      } else if m < e {
      } else if m == e {
      } else if m < j {
      } else if m < j + 3 {
        assert r[m] == Fence[m - j] == s[j..j + 3][m - j];
      }
    }
  }

  /** The fence matcher recognises a block whose groups are `language` and `code`. */
  lemma MatchFenceFound(language: string, code: string, rest: string)
    requires forall k :: 0 <= k < |language| ==> IsWordChar(language[k])
    requires NoDelimBefore(code + Fence, Fence, |code|)
    ensures MatchFence(Fence + language + "\n" + code + Fence + rest)
            == Some(FenceMatch(language, code, 3 + |language| + 1 + |code| + 3))
  {
    var s := Fence + language + "\n" + code + Fence + rest;
    var e := 3 + |language|;
    var j := e + 1 + |code|;
    assert DelimAt(s, 0, Fence) by { assert s[0..3] == Fence; }
    assert s[e] == '\n';
    assert WordRunEnd(s, 3) == e by {
      forall m | 3 <= m < e ensures IsWordChar(s[m]) {
        assert s[m] == language[m - 3];
      }
      WordRunEndAt(s, 3, e);
    }
    assert DelimAt(s, j, Fence) by { assert s[j..j + 3] == Fence; }
    ShiftNoDelim(Fence + language + "\n", code, Fence, rest);
    LazyCloseAt(s, Fence, e + 1, j, true);
    assert s[3..e] == language;
    assert s[e + 1..j] == code;
  }

  /** `str.replace(c, rep)` for a one-character `c`. */
  function ReplaceChar(s: string, c: char, rep: string): string {
    if s == [] then []
    else (if s[0] == c then rep else [s[0]]) + ReplaceChar(s[1..], c, rep)
  }

  /** Every `c` is replaced; a string without `c` is left as it is. */
  lemma {:induction false} ReplaceCharRemoves(s: string, c: char, rep: string)
    ensures c !in rep ==> c !in ReplaceChar(s, c, rep)
    ensures c !in s ==> ReplaceChar(s, c, rep) == s
  {
    if s != [] {
      ReplaceCharRemoves(s[1..], c, rep);
    }
  }

  /** Replacement distributes over concatenation. */
  lemma {:induction false} ReplaceCharAppend(a: string, b: string, c: char, rep: string)
    ensures ReplaceChar(a + b, c, rep) == ReplaceChar(a, c, rep) + ReplaceChar(b, c, rep)
  {
    if a != [] {
      assert (a + b)[1..] == a[1..] + b;
      ReplaceCharAppend(a[1..], b, c, rep);
    } else {
      assert a + b == b;
    }
  }

  /** The escaping in `code_block_replacer`: '&' first, then '<', then '>'. */
  function EscapeHtml(code: string): string {
    ReplaceChar(ReplaceChar(ReplaceChar(code, '&', "&amp;"), '<', "&lt;"), '>', "&gt;")
  }

  /** The entity each character becomes, taken one character at a time. */
  function EscapeChar(c: char): string {
    if c == '&' then "&amp;" else if c == '<' then "&lt;" else if c == '>' then "&gt;" else [c]
  }

  /** Reference definition: escape each character on its own. */
  function Escaped(s: string): string {
    if s == [] then [] else EscapeChar(s[0]) + Escaped(s[1..])
  }

  lemma EscapeOneCharacter(x: char)
    ensures EscapeHtml([x]) == EscapeChar(x)
  {
    if x == '&' {
      assert ReplaceChar([x], '&', "&amp;") == "&amp;";
      assert ReplaceChar("&amp;", '<', "&lt;") == "&amp;";
      assert ReplaceChar("&amp;", '>', "&gt;") == "&amp;";
    } else if x == '<' {
      assert ReplaceChar([x], '&', "&amp;") == [x];
      assert ReplaceChar([x], '<', "&lt;") == "&lt;";
      assert ReplaceChar("&lt;", '>', "&gt;") == "&lt;";
    } else if x == '>' {
      assert ReplaceChar([x], '&', "&amp;") == [x];
      assert ReplaceChar([x], '<', "&lt;") == [x];
      assert ReplaceChar([x], '>', "&gt;") == "&gt;";
    } else {
      assert ReplaceChar([x], '&', "&amp;") == [x];
      assert ReplaceChar([x], '<', "&lt;") == [x];
      assert ReplaceChar([x], '>', "&gt;") == [x];
    }
  }

  /**
   * Because '&' is escaped first, the three chained replacements escape every
   * character exactly once: no entity introduced by a later step is escaped again.
   */
  lemma {:induction false} EscapeHtmlIsPerCharacter(s: string)
    ensures EscapeHtml(s) == Escaped(s)
  {
    if s != [] {
      var x, t := s[0], s[1..];
      assert s == [x] + t;
      ReplaceCharAppend([x], t, '&', "&amp;");
      var a1, a2 := ReplaceChar([x], '&', "&amp;"), ReplaceChar(t, '&', "&amp;");
      ReplaceCharAppend(a1, a2, '<', "&lt;");
      var b1, b2 := ReplaceChar(a1, '<', "&lt;"), ReplaceChar(a2, '<', "&lt;");
      ReplaceCharAppend(b1, b2, '>', "&gt;");
      EscapeHtmlIsPerCharacter(t);
      EscapeOneCharacter(x);
    } else {
      assert EscapeHtml(s) == [];
    }
  }

  /** A character other than '<', '>' and the entities' own letters is in the output iff it is in the input. */
  lemma {:induction false} EscapedKeeps(s: string, c: char)
    requires c !in "&;amplgt<>"
    ensures c in Escaped(s) <==> c in s
  {
    if s != [] {
      EscapedKeeps(s[1..], c);
      assert s == [s[0]] + s[1..];
    }
  }

  /** Escaping removes every '<' and '>'. */
  lemma {:induction false} EscapedHasNoAngle(s: string)
    ensures '<' !in Escaped(s) && '>' !in Escaped(s)
  {
    if s != [] {
      EscapedHasNoAngle(s[1..]);
    }
  }

  /** No '<' or '>' of the code body survives into the emitted HTML. */
  lemma EscapedHasNoAngleBrackets(s: string)
    ensures '<' !in EscapeHtml(s) && '>' !in EscapeHtml(s)
  {
    EscapeHtmlIsPerCharacter(s);
    EscapedHasNoAngle(s);
  }

  /** Code without '&', '<' and '>' is emitted verbatim. */
  lemma {:induction false} EscapedIdentity(s: string)
    requires '&' !in s && '<' !in s && '>' !in s
    ensures Escaped(s) == s
  {
    if s != [] {
      EscapedIdentity(s[1..]);
      assert s == [s[0]] + s[1..];
    }
  }

  /** Decodes the three entities the escaping produces. */
  function Unescape(s: string): string
    decreases |s|
  {
    if |s| >= 5 && s[..5] == "&amp;" then "&" + Unescape(s[5..])
    else if |s| >= 4 && s[..4] == "&lt;" then "<" + Unescape(s[4..])
    else if |s| >= 4 && s[..4] == "&gt;" then ">" + Unescape(s[4..])
    else if s == [] then []
    else [s[0]] + Unescape(s[1..])
  }

  lemma {:induction false} EscapedRoundTrip(s: string)
    ensures Unescape(Escaped(s)) == s
  {
    if s != [] {
      var x, t := s[0], s[1..];
      var u := EscapeChar(x) + Escaped(t);
      EscapedRoundTrip(t);
      if x == '&' {
        assert u[..5] == "&amp;" && u[5..] == Escaped(t);
      } else if x == '<' {
        assert |u| >= 5 ==> u[..5] != "&amp;" by { if |u| >= 5 { assert u[..5][1] == 'l'; } }
        assert u[..4] == "&lt;" && u[4..] == Escaped(t);
      } else if x == '>' {
        assert |u| >= 5 ==> u[..5] != "&amp;" by { if |u| >= 5 { assert u[..5][1] == 'g'; } }
        assert u[..4] != "&lt;" by { assert u[..4][1] == 'g'; }
        assert u[..4] == "&gt;" && u[4..] == Escaped(t);
      } else {
        assert u[0] == x && u[1..] == Escaped(t);
        assert |u| >= 5 ==> u[..5] != "&amp;" by { if |u| >= 5 { assert u[..5][0] == x; } }
        assert |u| >= 4 ==> u[..4] != "&lt;" && u[..4] != "&gt;" by { if |u| >= 4 { assert u[..4][0] == x; } }
        assert Unescape(u) == [x] + Unescape(u[1..]);
      }
      assert s == [x] + t;
    } else {
      assert Escaped(s) == [];
    }
  }

  /** The escaping loses nothing: the code body can be recovered from the output. */
  lemma EscapeRoundTrip(s: string)
    ensures Unescape(EscapeHtml(s)) == s
  {
    EscapeHtmlIsPerCharacter(s);
    EscapedRoundTrip(s);
  }

  const BlockOpen: string := "<div class=\"code-block\">" + "<span class=\"language\">"
  const BlockMid: string := "</span><pre><code>"
  const BlockClose: string := "</code></pre></div>"

  /** What `code_block_replacer` returns for one match. */
  function CodeBlockHtml(language: string, code: string): string {
    BlockOpen + language + BlockMid + EscapeHtml(code) + BlockClose
  }

  /** One substitution pass of the fenced-code-block pattern. */
  function CodeBlockPass(s: string): string
    decreases |s|
  {
    if s == [] then []
    else match MatchFence(s)
      case Some(m) => CodeBlockHtml(m.language, m.code) + CodeBlockPass(s[m.length..])
      case None => [s[0]] + CodeBlockPass(s[1..])
  }

  /**
   * A fenced block at the start of the text is replaced by its HTML, with the
   * language tag and the body up to the first closing fence.
   */
  lemma CodeBlockPassMatch(language: string, code: string, rest: string)
    requires forall k :: 0 <= k < |language| ==> IsWordChar(language[k])
    requires NoDelimBefore(code + Fence, Fence, |code|)
    ensures CodeBlockPass(Fence + language + "\n" + code + Fence + rest)
            == CodeBlockHtml(language, code) + CodeBlockPass(rest)
  {
    var s := Fence + language + "\n" + code + Fence + rest;
    var n := 3 + |language| + 1 + |code| + 3;
    MatchFenceFound(language, code, rest);
    assert s[n..] == rest;
  }

  /** A first character other than a backtick is copied. */
  lemma CodeBlockPassStep(s: string)
    requires s != [] && s[0] != '`'
    ensures CodeBlockPass(s) == [s[0]] + CodeBlockPass(s[1..])
  {
    assert !DelimAt(s, 0, Fence) by {
      if 3 <= |s| { assert s[0..3][0] == s[0]; }
    }
  }

  /** Text without a backtick is copied by the code-block pass. */
  lemma {:induction false} CodeBlockPassCopy(p: string, rest: string)
    requires '`' !in p
    ensures CodeBlockPass(p + rest) == p + CodeBlockPass(rest)
  {
    if p != [] {
      var s := p + rest;
      CodeBlockPassStep(s);
      assert s[1..] == p[1..] + rest;
      CodeBlockPassCopy(p[1..], rest);
    } else {
      assert p + rest == rest;
    }
  }

  /** Text without a backtick has no fence and is left unchanged. */
  lemma CodeBlockPassUnchanged(s: string)
    requires '`' !in s
    ensures CodeBlockPass(s) == s
  {
    CodeBlockPassCopy(s, []);
    assert s + [] == s;
  }

  // ---------------------------------------------------------------------------
  // Pass 5 and the driver

  /** The last substitution: every newline becomes a line-break marker. */
  function LineBreakPass(s: string): (r: string)
    ensures '\n' !in r
  {
    ReplaceCharRemoves(s, '\n', "<br>");
    ReplaceChar(s, '\n', "<br>")
  }

  /** The entries of the ordered pattern list. */
  datatype Rule = FencedCode | Bold | Italic | InlineCode | LineBreak

  const Patterns: seq<Rule> := [FencedCode, Bold, Italic, InlineCode, LineBreak]

  /** One substitution of the loop; only the code-block rule uses DOTALL. */
  function ApplyRule(rule: Rule, text: string): string {
    match rule
    case FencedCode => CodeBlockPass(text)
    case Bold => SpanPass(text, "**", "<strong>", "</strong>")
    case Italic => SpanPass(text, "*", "<em>", "</em>")
    case InlineCode => SpanPass(text, "`", "<code>", "</code>")
    case LineBreak => LineBreakPass(text)
  }

  /** The rules applied in order, each to the output of the previous ones. */
  function ApplyRules(rules: seq<Rule>, text: string): string {
    if rules == [] then text
    else ApplyRule(rules[|rules| - 1], ApplyRules(rules[..|rules| - 1], text))
  }

  /** The value `markdown_to_html` returns: empty text short-circuits. */
  function Rendered(text: string): string {
    if text == [] then [] else ApplyRules(Patterns, text)
  }

  /** Passes 2 to 5, applied to the output of the code-block pass. */
  function InlinePasses(t: string): string {
    LineBreakPass(SpanPass(SpanPass(SpanPass(t,
      "**", "<strong>", "</strong>"), "*", "<em>", "</em>"), "`", "<code>", "</code>"))
  }

  /** The five passes, written out. */
  lemma RenderedPasses(text: string)
    requires text != []
    ensures Rendered(text) == InlinePasses(CodeBlockPass(text))
  {
    var r1, r2, r3, r4 := [FencedCode], [FencedCode, Bold], [FencedCode, Bold, Italic], Patterns[..4];
    assert r1[..0] == [] && r2[..1] == r1 && r3[..2] == r2 && r4[..3] == r3;
    assert Patterns[4] == LineBreak && r4[3] == InlineCode;
    assert ApplyRules(r1, text) == CodeBlockPass(text);
    assert ApplyRules(r2, text) == ApplyRule(Bold, ApplyRules(r1, text));
    assert ApplyRules(r3, text) == ApplyRule(Italic, ApplyRules(r2, text));
    assert ApplyRules(r4, text) == ApplyRule(InlineCode, ApplyRules(r3, text));
    assert ApplyRules(Patterns, text) == ApplyRule(LineBreak, ApplyRules(r4, text));
  }

  /** The rendered text never holds a raw newline: the last pass replaces them all. */
  lemma RenderedHasNoNewline(text: string)
    ensures '\n' !in Rendered(text)
  {
    if text != [] {
      RenderedPasses(text);
    }
  }

  /** `markdown_to_html`: the loop over the pattern list. */
  method MarkdownToHtml(text: string) returns (html: string)
    ensures html == Rendered(text)
    ensures '\n' !in html
    ensures text == [] ==> html == []
  {
    if text == [] {
      return [];
    }
    html := text;
    for i := 0 to |Patterns|
      invariant html == ApplyRules(Patterns[..i], text)
    {
      assert Patterns[..i + 1][..i] == Patterns[..i];
      html := ApplyRule(Patterns[i], html);
    }
    assert Patterns[..|Patterns|] == Patterns;
    RenderedHasNoNewline(text);
  }

  // ---------------------------------------------------------------------------
  // Properties of the whole transformation

  /** Text free of the markup characters '`', '*' and newline. */
  predicate Plain(s: string) {
    '`' !in s && '*' !in s && '\n' !in s
  }

  lemma PlainConcat(a: string, b: string)
    requires Plain(a) && Plain(b)
    ensures Plain(a + b)
  {
  }

  /** The tags the passes emit hold no markup character, and the delimiters no backtick or newline. */
  lemma TagsPlain()
    ensures Plain("<strong>") && Plain("</strong>") && Plain("<em>") && Plain("</em>") && Plain(" ")
    ensures Plain(BlockOpen) && Plain(BlockMid) && Plain(BlockClose)
    ensures '`' !in "**" && '\n' !in "**" && '`' !in "*" && '\n' !in "*"
  {
    BlockTagsPlain();
  }

  lemma BlockTagsPlain()
    ensures Plain(BlockOpen) && Plain(BlockMid) && Plain(BlockClose)
  {
    assert Plain("<div class=\"code-block\">");
    assert Plain("<span class=\"language\">");
    PlainConcat("<div class=\"code-block\">", "<span class=\"language\">");
    assert Plain(BlockMid);
    assert Plain(BlockClose);
  }

  /** Rendering, given the result of each of the five passes. */
  lemma RenderedChain(s: string, c: string, b: string, i: string, k: string, out: string)
    requires s != [] && CodeBlockPass(s) == c
    requires SpanPass(c, "**", "<strong>", "</strong>") == b
    requires SpanPass(b, "*", "<em>", "</em>") == i
    requires SpanPass(i, "`", "<code>", "</code>") == k
    requires LineBreakPass(k) == out
    ensures Rendered(s) == out
  {
    RenderedPasses(s);
  }

  /** A one-character text is never a span. */
  lemma SpanPassSingle(c: char, d: string, open: string, close: string)
    requires d != []
    ensures SpanPass([c], d, open, close) == [c]
  {
    assert [c][1..] == [];
  }

  /**
   * The bold pass leaves a single-asterisk span alone when its body is not
   * empty and no asterisk follows it.
   */
  lemma BoldPassSkipsSingle(mid: string, rest: string)
    requires '*' !in mid && mid != [] && '*' !in rest
    ensures SpanPass("*" + mid + "*" + rest, "**", "<strong>", "</strong>") == "*" + mid + "*" + rest
  {
    var q := "*" + rest;
    var s := "*" + (mid + q);
    assert s == "*" + mid + "*" + rest;
    assert !DelimAt(s, 0, "**") by { assert s[0..2][1] == mid[0]; }
    SpanPassStep(s, "**", "<strong>", "</strong>");
    assert [s[0]] == "*" && s[1..] == mid + q;
    SpanPassCopy(mid, q, "**", "<strong>", "</strong>");
    BoldPassSkipsLone(rest);
  }

  /** An asterisk not followed by another is copied by the bold pass. */
  lemma BoldPassSkipsLone(rest: string)
    requires '*' !in rest
    ensures SpanPass("*" + rest, "**", "<strong>", "</strong>") == "*" + rest
  {
    var q := "*" + rest;
    assert !DelimAt(q, 0, "**") by {
      if 2 <= |q| { assert q[0..2][1] == rest[0]; }
    }
    SpanPassStep(q, "**", "<strong>", "</strong>");
    assert q[1..] == rest;
    NoCharNoDelim(rest, "**");
    SpanPassUnchanged(rest, "**", "<strong>", "</strong>");
  }

  /** A delimiter that meets a newline before its partner opens no span. */
  lemma {:induction false} LazyCloseBlocked(s: string, d: string, k: nat, n: nat)
    requires d != [] && k <= n < |s| && s[n] == '\n'
    requires forall m :: k <= m <= n ==> s[m] != d[0]
    decreases n - k
    ensures LazyClose(s, d, k, false).None?
  {
    assert !DelimAt(s, k, d) by {
      if k + |d| <= |s| { assert s[k..k + |d|][0] == s[k]; }
    }
    if k < n {
      LazyCloseBlocked(s, d, k + 1, n);
    }
  }

  /** The italic pass does not pair asterisks on two different lines. */
  lemma ItalicPassAcrossLine(a: string, b: string)
    requires '*' !in a && '*' !in b
    ensures SpanPass("*" + a + "\n" + b + "*", "*", "<em>", "</em>") == "*" + a + "\n" + b + "*"
  {
    var mid := a + "\n" + b;
    var s := "*" + (mid + "*");
    assert s == "*" + a + "\n" + b + "*";
    ItalicOpenUnclosed(a, b);
    SpanPassUnclosed(s, "*", "<em>", "</em>");
    assert [s[0]] == "*" && s[1..] == mid + "*";
    assert '*' !in mid;
    SpanPassCopy(mid, "*", "*", "<em>", "</em>");
    SpanPassSingle('*', "*", "<em>", "</em>");
  }

  /** The opening asterisk finds a newline before any closing one. */
  lemma ItalicOpenUnclosed(a: string, b: string)
    requires '*' !in a && '*' !in b
    ensures LazyClose("*" + ((a + "\n" + b) + "*"), "*", 1, false).None?
  {
    var mid := a + "\n" + b;
    var s := "*" + (mid + "*");
    var n := 1 + |a|;
    assert s[n] == mid[|a|] == '\n';
    forall m | 1 <= m <= n ensures s[m] != '*' {
      assert s[m] == mid[m - 1];
    }
    LazyCloseBlocked(s, "*", 1, n);
  }

  /** Passes 3 to 5 leave plain text unchanged. */
  lemma LaterPassesUnchanged(t: string)
    requires Plain(t)
    ensures SpanPass(t, "*", "<em>", "</em>") == t
    ensures SpanPass(t, "`", "<code>", "</code>") == t
    ensures LineBreakPass(t) == t
  {
    NoCharNoDelim(t, "*");
    SpanPassUnchanged(t, "*", "<em>", "</em>");
    NoCharNoDelim(t, "`");
    SpanPassUnchanged(t, "`", "<code>", "</code>");
    ReplaceCharRemoves(t, '\n', "<br>");
  }

  /** Passes 2 to 5 leave plain text unchanged. */
  lemma InlinePassesUnchanged(t: string)
    requires Plain(t)
    ensures InlinePasses(t) == t
  {
    NoCharNoDelim(t, "**");
    SpanPassUnchanged(t, "**", "<strong>", "</strong>");
    LaterPassesUnchanged(t);
  }

  /** Text with none of the markup characters passes through unchanged. */
  lemma PlainTextUnchanged(text: string)
    requires Plain(text)
    ensures Rendered(text) == text
  {
    if text != [] {
      CodeBlockPassUnchanged(text);
      RenderedPasses(text);
      InlinePassesUnchanged(text);
    }
  }

  /** The text of a span wrapped in tags free of markup is plain. */
  lemma WrappedPlain(open: string, body: string, close: string)
    requires Plain(open) && Plain(body) && Plain(close)
    ensures Plain(open + body + close)
  {
    PlainConcat(open, body);
    PlainConcat(open + body, close);
  }

  /**
   * Bold runs before italic: a double-asterisk span becomes a strong element and
   * no emphasis is produced from its asterisks.
   */
  lemma RenderBold(body: string)
    requires Plain(body)
    ensures Rendered("**" + body + "**") == "<strong>" + body + "</strong>"
  {
    var s := "**" + body + "**";
    var t := "<strong>" + body + "</strong>";
    TagsPlain();
    CodeBlockPassUnchanged(s);
    assert SpanPass(s, "**", "<strong>", "</strong>") == t by {
      NoCharNoDelimBefore(body, "**");
      SpanPassMatch("**", body, [], "<strong>", "</strong>");
      assert s == "**" + body + "**" + [];
    }
    WrappedPlain("<strong>", body, "</strong>");
    LaterPassesUnchanged(t);
    RenderedChain(s, s, t, t, t, t);
  }

  /** A single-asterisk span becomes an emphasis element. */
  lemma RenderItalic(body: string)
    requires Plain(body) && body != []
    ensures Rendered("*" + body + "*") == "<em>" + body + "</em>"
  {
    var s := "*" + body + "*";
    var t := "<em>" + body + "</em>";
    TagsPlain();
    CodeBlockPassUnchanged(s);
    BoldPassSkipsSingle(body, []);
    assert s + [] == s;
    ItalicPassMatch([], body, []);
    assert [] + t + [] == t && [] + s + [] == s;
    WrappedPlain("<em>", body, "</em>");
    LaterPassesUnchanged(t);
    RenderedChain(s, s, s, t, t, t);
  }

  /** The italic pass turns a single-asterisk span, between texts without asterisks, into emphasis. */
  lemma ItalicPassMatch(before: string, body: string, after: string)
    requires '*' !in before && Plain(body) && '*' !in after
    ensures SpanPass(before + ("*" + body + "*") + after, "*", "<em>", "</em>")
            == before + ("<em>" + body + "</em>") + after
  {
    var it := "*" + body + "*";
    assert before + it + after == before + (it + after);
    SpanPassCopy(before, it + after, "*", "<em>", "</em>");
    NoCharNoDelimBefore(body, "*");
    SpanPassMatch("*", body, after, "<em>", "</em>");
    NoCharNoDelim(after, "*");
    SpanPassUnchanged(after, "*", "<em>", "</em>");
  }

  /** The bold pass over a strong span followed by an emphasis span. */
  lemma BoldThenItalicBoldPass(a: string, b: string)
    requires Plain(a) && Plain(b) && b != []
    ensures SpanPass("**" + a + "**" + (" " + ("*" + b + "*")), "**", "<strong>", "</strong>")
            == "<strong>" + a + "</strong>" + (" " + ("*" + b + "*"))
  {
    var it := "*" + b + "*";
    var tail := " " + it;
    assert SpanPass(tail, "**", "<strong>", "</strong>") == tail by {
      SpanPassCopy(" ", it, "**", "<strong>", "</strong>");
      BoldPassSkipsSingle(b, []);
      assert it + [] == it;
    }
    NoCharNoDelimBefore(a, "**");
    SpanPassMatch("**", a, tail, "<strong>", "</strong>");
  }

  /**
   * Bold followed by italic on one line: the strong span closes at the first
   * double asterisk, and the single-asterisk span after it becomes emphasis.
   */
  lemma RenderBoldThenItalic(a: string, b: string)
    requires Plain(a) && Plain(b) && b != []
    ensures Rendered("**" + a + "**" + " " + "*" + b + "*")
            == "<strong>" + a + "</strong>" + " " + "<em>" + b + "</em>"
  {
    TagsPlain();
    var it := "*" + b + "*";
    var s := "**" + a + "**" + (" " + it);
    var bold := "<strong>" + a + "</strong>" + " ";
    var t := bold + it + [];
    var u := bold + ("<em>" + b + "</em>") + [];
    assert s == "**" + a + "**" + " " + "*" + b + "*";
    assert t == "<strong>" + a + "</strong>" + (" " + ("*" + b + "*"));
    assert u == "<strong>" + a + "</strong>" + " " + "<em>" + b + "</em>";
    assert '`' !in s;
    BoldThenItalicBoldPass(a, b);
    WrappedPlain("<strong>", a, "</strong>");
    PlainConcat("<strong>" + a + "</strong>", " ");
    ItalicPassMatch(bold, b, []);
    WrappedPlain("<em>", b, "</em>");
    PlainConcat(bold, "<em>" + b + "</em>");
    LaterPassesUnchanged(u);
    CodeBlockPassUnchanged(s);
    RenderedChain(s, s, t, u, u, u);
  }

  /** A span cannot cross a line: asterisks on two lines stay as they are. */
  lemma RenderSpanStopsAtNewline(a: string, b: string)
    requires Plain(a) && Plain(b)
    ensures Rendered("*" + a + "\n" + b + "*") == "*" + a + "<br>" + b + "*"
  {
    var mid := a + "\n" + b;
    var s := "*" + mid + "*";
    var out := "*" + a + "<br>" + b + "*";
    TagsPlain();
    assert s == "*" + a + "\n" + b + "*" && s + [] == s;
    assert '`' !in s && '*' !in mid;
    CodeBlockPassUnchanged(s);
    BoldPassSkipsSingle(mid, []);
    ItalicPassAcrossLine(a, b);
    assert SpanPass(s, "`", "<code>", "</code>") == s by {
      NoCharNoDelim(s, "`");
      SpanPassUnchanged(s, "`", "<code>", "</code>");
    }
    LineBreakAcross(a, b);
    RenderedChain(s, s, s, s, s, out);
  }

  /** The last pass on two plain lines joined by a newline. */
  lemma LineBreakAcross(a: string, b: string)
    requires Plain(a) && Plain(b)
    ensures LineBreakPass("*" + a + "\n" + b + "*") == "*" + a + "<br>" + b + "*"
  {
    TagsPlain();
    LineBreakBetween("*" + a, b + "*");
    assert "*" + a + "\n" + b + "*" == ("*" + a) + "\n" + (b + "*");
  }

  /** A newline between two texts without newlines becomes a line-break marker. */
  lemma LineBreakBetween(p: string, q: string)
    requires '\n' !in p && '\n' !in q
    ensures LineBreakPass(p + "\n" + q) == p + "<br>" + q
  {
    ReplaceCharAppend(p + "\n", q, '\n', "<br>");
    ReplaceCharAppend(p, "\n", '\n', "<br>");
    ReplaceCharRemoves(p, '\n', "<br>");
    ReplaceCharRemoves(q, '\n', "<br>");
    assert ReplaceChar("\n", '\n', "<br>") == "<br>";
  }

  /** Text without a newline, appended, is copied by the last pass. */
  lemma LineBreakAppend(p: string, q: string)
    requires '\n' !in q
    ensures LineBreakPass(p + q) == LineBreakPass(p) + q
  {
    ReplaceCharAppend(p, q, '\n', "<br>");
    ReplaceCharRemoves(q, '\n', "<br>");
  }

  /**
   * A fenced block is rendered with its language and its escaped body; the body
   * may span lines, and its newlines become `<br>` in the last pass.
   */
  lemma RenderFencedBlock(language: string, code: string)
    requires forall k :: 0 <= k < |language| ==> IsWordChar(language[k])
    requires '`' !in code && '*' !in code
    ensures Rendered(Fence + language + "\n" + code + Fence)
            == BlockOpen + language + BlockMid + LineBreakPass(EscapeHtml(code)) + BlockClose
  {
    var s := Fence + language + "\n" + code + Fence;
    var h := CodeBlockHtml(language, code);
    assert CodeBlockPass(s) == h by {
      NoCharNoDelimBefore(code, Fence);
      CodeBlockPassMatch(language, code, []);
      assert s == Fence + language + "\n" + code + Fence + [];
    }
    RenderedPasses(s);
    CodeBlockHtmlPasses(language, code);
  }

  /** The HTML of a block whose code has no '*' or '`' is untouched by passes 2-4. */
  lemma CodeBlockHtmlPasses(language: string, code: string)
    requires forall k :: 0 <= k < |language| ==> IsWordChar(language[k])
    requires '`' !in code && '*' !in code
    ensures InlinePasses(CodeBlockHtml(language, code))
            == BlockOpen + language + BlockMid + LineBreakPass(EscapeHtml(code)) + BlockClose
  {
    TagsPlain();
    var e := EscapeHtml(code);
    var head := BlockOpen + language + BlockMid;
    var h := head + e + BlockClose;
    assert Plain(language) by {
      forall k | 0 <= k < |language| ensures language[k] != '`' && language[k] != '*' && language[k] != '\n' {
        assert IsWordChar(language[k]);
      }
    }
    WrappedPlain(BlockOpen, language, BlockMid);
    assert '*' !in e && '`' !in e by {
      EscapeHtmlIsPerCharacter(code);
      EscapedKeeps(code, '*');
      EscapedKeeps(code, '`');
    }
    assert '*' !in h && '`' !in h;
    assert SpanPass(SpanPass(SpanPass(h, "**", "<strong>", "</strong>"), "*", "<em>", "</em>"), "`", "<code>", "</code>") == h by {
      NoCharNoDelim(h, "**");
      SpanPassUnchanged(h, "**", "<strong>", "</strong>");
      NoCharNoDelim(h, "*");
      SpanPassUnchanged(h, "*", "<em>", "</em>");
      NoCharNoDelim(h, "`");
      SpanPassUnchanged(h, "`", "<code>", "</code>");
    }
    assert LineBreakPass(h) == head + LineBreakPass(e) + BlockClose by {
      LineBreakAppend(head + e, BlockClose);
      ReplaceCharAppend(head, e, '\n', "<br>");
      ReplaceCharRemoves(head, '\n', "<br>");
    }
  }

  /** The code-block pass on a block whose code is one emphasis span and a newline. */
  lemma InsideCodeBlockPass(x: string)
    requires Plain(x) && '&' !in x && '<' !in x && '>' !in x
    ensures CodeBlockPass(Fence + "\n" + "*" + x + "*" + "\n" + Fence)
            == BlockOpen + "" + BlockMid + ("*" + x + "*" + "\n") + BlockClose
  {
    var code := "*" + x + "*" + "\n";
    assert Fence + "" + "\n" + code + Fence + [] == Fence + "\n" + "*" + x + "*" + "\n" + Fence;
    assert EscapeHtml(code) == code by {
      assert '&' !in code && '<' !in code && '>' !in code;
      EscapeHtmlIsPerCharacter(code);
      EscapedIdentity(code);
    }
    assert '`' !in code;
    NoCharNoDelimBefore(code, Fence);
    CodeBlockPassMatch("", code, []);
  }

  /** The bold pass leaves the emitted block alone. */
  lemma InsideCodeBold(x: string)
    requires Plain(x) && x != []
    ensures var c := BlockOpen + BlockMid + ("*" + x + "*") + ("\n" + BlockClose);
            SpanPass(c, "**", "<strong>", "</strong>") == c
  {
    TagsPlain();
    var head := BlockOpen + BlockMid;
    var tail := "\n" + BlockClose;
    assert head + ("*" + x + "*") + tail == head + ("*" + x + "*" + tail);
    PlainConcat(BlockOpen, BlockMid);
    SpanPassCopy(head, "*" + x + "*" + tail, "**", "<strong>", "</strong>");
    BoldPassSkipsSingle(x, tail);
  }

  /** The italic pass turns the asterisk pair inside the block into emphasis. */
  lemma InsideCodeItalic(x: string)
    requires Plain(x)
    ensures SpanPass(BlockOpen + BlockMid + ("*" + x + "*") + ("\n" + BlockClose), "*", "<em>", "</em>")
            == BlockOpen + BlockMid + "<em>" + x + "</em>" + "\n" + BlockClose
  {
    TagsPlain();
    PlainConcat(BlockOpen, BlockMid);
    ItalicPassMatch(BlockOpen + BlockMid, x, "\n" + BlockClose);
    assert BlockOpen + BlockMid + ("<em>" + x + "</em>") + ("\n" + BlockClose)
           == BlockOpen + BlockMid + "<em>" + x + "</em>" + "\n" + BlockClose;
  }

  /** The inline-code pass changes nothing, and the last pass turns the newline into `<br>`. */
  lemma InsideCodeLast(x: string)
    requires Plain(x)
    ensures var e := BlockOpen + BlockMid + "<em>" + x + "</em>" + "\n" + BlockClose;
            && SpanPass(e, "`", "<code>", "</code>") == e
            && LineBreakPass(e) == BlockOpen + BlockMid + "<em>" + x + "</em>" + "<br>" + BlockClose
  {
    TagsPlain();
    var p := BlockOpen + BlockMid + "<em>" + x + "</em>";
    var e := p + "\n" + BlockClose;
    assert Plain(p) by {
      WrappedPlain(BlockOpen, BlockMid, "<em>");
      WrappedPlain(BlockOpen + BlockMid + "<em>", x, "</em>");
    }
    assert '`' !in e;
    NoCharNoDelim(e, "`");
    SpanPassUnchanged(e, "`", "<code>", "</code>");
    LineBreakBetween(p, BlockClose);
  }

  /**
   * Later passes also rewrite the inside of an emitted code block: an asterisk
   * pair in the code becomes emphasis, and the body's newline becomes `<br>`.
   */
  lemma RenderFormatsInsideCode(x: string)
    requires Plain(x) && x != []
    requires '&' !in x && '<' !in x && '>' !in x
    ensures Rendered(Fence + "\n" + "*" + x + "*" + "\n" + Fence)
            == BlockOpen + BlockMid + "<em>" + x + "</em>" + "<br>" + BlockClose
  {
    var c := BlockOpen + BlockMid + ("*" + x + "*") + ("\n" + BlockClose);
    var e := BlockOpen + BlockMid + "<em>" + x + "</em>" + "\n" + BlockClose;
    assert BlockOpen + "" + BlockMid + ("*" + x + "*" + "\n") + BlockClose == c;
    InsideCodeBlockPass(x);
    InsideCodeBold(x);
    InsideCodeItalic(x);
    InsideCodeLast(x);
    RenderedChain(Fence + "\n" + "*" + x + "*" + "\n" + Fence, c, c, e, e,
      BlockOpen + BlockMid + "<em>" + x + "</em>" + "<br>" + BlockClose);
  }
}
