/**
 * The first half of `toTitleCaseSmart` (src/App.jsx:29-38): the lowered
 * text is split into whitespace runs and the chunks between them, each chunk
 * is split at hyphens, and every non-empty part gets an upper-case first
 * character.
 *
 * `TitleWords` follows the source's split/map/join structure; `CapFrom` is an
 * independent character-by-character definition, and `TitleWordsIsCapFrom`
 * proves that the two agree.
 */
module TitleCase {
  import opened Text

  /** `s.split(/(\s+)/)`: the text between whitespace runs, each run kept as a chunk of its own. */
  function SplitWs(s: string): (chunks: seq<string>)
    decreases |s|
  {
    var w := Span(s, Space, false);
    if w == |s| then [s]
    else
      var e := w + Span(s[w..], Space, true);
      [s[..w], s[w..e]] + SplitWs(s[e..])
  }

  /** `s.split('-')`. */
  function SplitHyphen(s: string): (parts: seq<string>)
    ensures |parts| >= 1
    decreases |s|
  {
    var i := Span(s, Hyphen, false);
    if i == |s| then [s] else [s[..i]] + SplitHyphen(s[i + 1..])
  }

  /** `/^\s+$/.test(chunk)`. */
  predicate IsSpaceRun(chunk: string) {
    chunk != [] && AllSpace(chunk)
  }

  /** `part.charAt(0).toUpperCase() + part.slice(1)`, with the empty part left alone. */
  function CapFirst(part: string): string {
    if part == [] then part else [UpperChar(part[0])] + part[1..]
  }

  function CapParts(parts: seq<string>): seq<string> {
    if parts == [] then [] else [CapFirst(parts[0])] + CapParts(parts[1..])
  }

  /** The callback of `words.map`: whitespace runs unchanged, other chunks capitalised per hyphen part. */
  function CapChunk(chunk: string): string {
    if IsSpaceRun(chunk) then chunk else Join(CapParts(SplitHyphen(chunk)), "-")
  }

  function CapChunks(chunks: seq<string>): string {
    if chunks == [] then "" else CapChunk(chunks[0]) + CapChunks(chunks[1..])
  }

  /** The capitalised text `cap` of src/App.jsx:30-38, computed from the lowered input. */
  function TitleWords(lower: string): string {
    CapChunks(SplitWs(lower))
  }

  // ---------------------------------------------------------------------
  // The reference definition: a character is upper-cased exactly when it
  // opens the text or follows whitespace or a hyphen.

  predicate IsBreak(c: char) {
    IsSpace(c) || c == '-'
  }

  function CapFrom(s: string, start: bool): string {
    if s == [] then [] else [if start then UpperChar(s[0]) else s[0]] + CapFrom(s[1..], IsBreak(s[0]))
  }

  /** Whether the character after `x` starts a part, when `x` is preceded by a break iff `b`. */
  function After(x: string, b: bool): bool {
    if x == [] then b else IsBreak(x[|x| - 1])
  }

  lemma {:induction false} CapFromAt(s: string, b: bool, i: nat)
    requires i < |s|
    ensures |CapFrom(s, b)| == |s|
    ensures CapFrom(s, b)[i] == if (if i == 0 then b else IsBreak(s[i - 1])) then UpperChar(s[i]) else s[i]
  {
    if i > 0 {
      CapFromAt(s[1..], IsBreak(s[0]), i - 1);
    } else if |s| > 1 {
      CapFromAt(s[1..], IsBreak(s[0]), 0);
    }
  }

  lemma {:induction false} CapFromAppend(x: string, y: string, b: bool)
    ensures CapFrom(x + y, b) == CapFrom(x, b) + CapFrom(y, After(x, b))
  {
    if x == [] {
      assert x + y == y;
    } else {
      var h := [if b then UpperChar(x[0]) else x[0]];
      assert (x + y)[0] == x[0] && (x + y)[1..] == x[1..] + y;
      assert CapFrom(x + y, b) == h + CapFrom(x[1..] + y, IsBreak(x[0]));
      CapFromAppend(x[1..], y, IsBreak(x[0]));
      assert CapFrom(x, b) == h + CapFrom(x[1..], IsBreak(x[0]));
      AppendAssoc(h, CapFrom(x[1..], IsBreak(x[0])), CapFrom(y, After(x, b)));
      assert After(x[1..], IsBreak(x[0])) == After(x, b) by {
        if |x| > 1 {
          assert x[1..][|x[1..]| - 1] == x[|x| - 1];
        }
      }
    }
  }

  lemma {:induction false} CapFromSpaces(r: string, b: bool)
    requires AllSpace(r)
    ensures CapFrom(r, b) == r
  {
    if r != [] {
      CapFromSpaces(r[1..], true);
    }
  }

  lemma {:induction false} CapFromPlain(x: string)
    requires forall i :: 0 <= i < |x| ==> !IsBreak(x[i])
    ensures CapFrom(x, false) == x
  {
    if x != [] {
      CapFromPlain(x[1..]);
    }
  }

  lemma {:induction false} CapFirstIsCapFrom(p: string)
    requires forall i :: 0 <= i < |p| ==> !IsBreak(p[i])
    ensures CapFirst(p) == CapFrom(p, true)
  {
    if p != [] {
      CapFromPlain(p[1..]);
    }
  }

  lemma JoinCons(a: string, t: seq<string>, sep: string)
    requires t != []
    ensures Join([a] + t, sep) == a + sep + Join(t, sep)
  {
    assert ([a] + t)[1..] == t;
  }

  /** Capitalising `p + "-" + rest` character by character splits at the hyphen. */
  lemma CapFromAtHyphen(p: string, rest: string)
    requires forall i :: 0 <= i < |p| ==> !IsBreak(p[i])
    ensures CapFrom(p + "-" + rest, true) == CapFirst(p) + "-" + CapFrom(rest, true)
  {
    CapFirstIsCapFrom(p);
    assert p + "-" + rest == p + ("-" + rest);
    CapFromAppend(p, "-" + rest, true);
    CapFromAppend("-", rest, After(p, true));
  }

  /** A chunk without whitespace, capitalised per hyphen part, is `CapFrom` of the chunk. */
  lemma {:induction false} HyphenCapIsCapFrom(w: string)
    requires forall i :: 0 <= i < |w| ==> !IsSpace(w[i])
    ensures Join(CapParts(SplitHyphen(w)), "-") == CapFrom(w, true)
    decreases |w|
  {
    var i := Span(w, Hyphen, false);
    SpanFacts(w, Hyphen, false);
    var p := w[..i];
    if i == |w| {
      assert p == w;
      CapFirstIsCapFrom(p);
    } else {
      var rest := w[i + 1..];
      HyphenCapIsCapFrom(rest);
      assert w == p + "-" + rest;
      CapFromAtHyphen(p, rest);
      var tail := CapParts(SplitHyphen(rest));
      assert CapParts(SplitHyphen(w)) == [CapFirst(p)] + tail;
      JoinCons(CapFirst(p), tail, "-");
    }
  }

  lemma CapChunksCons2(a: string, b: string, rest: seq<string>)
    ensures CapChunks([a, b] + rest) == CapChunk(a) + (CapChunk(b) + CapChunks(rest))
  {
    assert ([a, b] + rest)[1..] == [b] + rest;
    assert ([b] + rest)[1..] == rest;
  }

  /** Capitalising `w + r + rest` character by character, where `r` is a whitespace run. */
  lemma CapFromAtSpaceRun(w: string, r: string, rest: string)
    requires IsSpaceRun(r)
    ensures CapFrom(w + r + rest, true) == CapFrom(w, true) + r + CapFrom(rest, true)
  {
    assert w + r + rest == w + (r + rest);
    CapFromAppend(w, r + rest, true);
    CapFromAppend(r, rest, After(w, true));
    CapFromSpaces(r, After(w, true));
  }

  /** One step of `SplitWs`: a non-space chunk, a whitespace run, and the split of the rest. */
  lemma SplitWsStep(s: string) returns (w: string, r: string, rest: string)
    requires Span(s, Space, false) < |s|
    ensures s == w + r + rest && |rest| < |s|
    ensures forall i :: 0 <= i < |w| ==> !IsSpace(w[i])
    ensures IsSpaceRun(r)
    ensures SplitWs(s) == [w, r] + SplitWs(rest)
  {
    var n := Span(s, Space, false);
    var k := Span(s[n..], Space, true);
    var e := n + k;
    SpanFacts(s, Space, false);
    assert IsSpace(s[n]) by { assert InClass(s[n], Space); }
    assert k > 0 by { assert s[n..][0] == s[n]; }
    SpanAllSpace(s[n..]);
    assert s[n..][..k] == s[n..e];
    forall i | 0 <= i < n ensures !IsSpace(s[..n][i]) {
      assert !InClass(s[i], Space);
    }
    SplitAt(s, n, e);
    w, r, rest := s[..n], s[n..e], s[e..];
  }

  lemma TitleWordsOneChunk(s: string)
    requires Span(s, Space, false) == |s|
    ensures TitleWords(s) == CapFrom(s, true)
  {
    assert forall i :: 0 <= i < |s| ==> !IsSpace(s[i]) by {
      SpanFacts(s, Space, false);
      forall i | 0 <= i < |s| ensures !IsSpace(s[i]) { assert !InClass(s[i], Space); }
    }
    HyphenCapIsCapFrom(s);
    assert !IsSpaceRun(s) by {
      if s != [] { assert !IsSpace(s[0]); }
    }
    assert SplitWs(s) == [s];
    assert CapChunks([s]) == CapChunk(s) by { assert [s][1..] == []; }
  }

  lemma TitleWordsStep(s: string, w: string, r: string, rest: string)
    requires s == w + r + rest
    requires forall i :: 0 <= i < |w| ==> !IsSpace(w[i])
    requires IsSpaceRun(r)
    requires SplitWs(s) == [w, r] + SplitWs(rest)
    requires TitleWords(rest) == CapFrom(rest, true)
    ensures TitleWords(s) == CapFrom(s, true)
  {
    HyphenCapIsCapFrom(w);
    assert !IsSpaceRun(w) by {
      if w != [] { assert !IsSpace(w[0]); }
    }
    CapChunksCons2(w, r, SplitWs(rest));
    CapFromAtSpaceRun(w, r, rest);
  }

  /** The split/map/join capitalisation agrees with the character-level definition. */
  lemma {:induction false} TitleWordsIsCapFrom(s: string)
    ensures TitleWords(s) == CapFrom(s, true)
    decreases |s|
  {
    if Span(s, Space, false) == |s| {
      TitleWordsOneChunk(s);
    } else {
      var w, r, rest := SplitWsStep(s);
      TitleWordsIsCapFrom(rest);
      TitleWordsStep(s, w, r, rest);
    }
  }

  /**
   * The capitalisation step character by character: the result is as long as
   * the lowered input; a character is upper-cased exactly when it opens the
   * text or follows whitespace or a hyphen, and is otherwise kept in lower
   * case; so every whitespace run and every hyphen stays where it was.
   */
  lemma TitleWordsAt(input: string, i: nat)
    requires i < |input|
    ensures |TitleWords(Lower(input))| == |input|
    ensures TitleWords(Lower(input))[i] ==
      if i == 0 || IsBreak(input[i - 1]) then UpperChar(LowerChar(input[i])) else LowerChar(input[i])
    ensures IsBreak(input[i]) ==> TitleWords(Lower(input))[i] == input[i]
  {
    var l := Lower(input);
    TitleWordsIsCapFrom(l);
    CapFromAt(l, true, i);
    assert l[i] == LowerChar(input[i]);
    if i > 0 {
      assert l[i - 1] == LowerChar(input[i - 1]);
      assert IsBreak(l[i - 1]) == IsBreak(input[i - 1]) by {
        if IsBreak(input[i - 1]) { BreakIsCaseless(input[i - 1]); } else { CaseKeepsBreak(input[i - 1]); }
      }
    }
    if IsBreak(input[i]) {
      BreakIsCaseless(input[i]);
    }
  }

  lemma BreakIsCaseless(c: char)
    requires IsBreak(c)
    ensures LowerChar(c) == c && UpperChar(c) == c
  {
  }

  lemma CaseKeepsBreak(c: char)
    requires !IsBreak(c)
    ensures !IsBreak(LowerChar(c))
  {
  }

  /** The reference definition at one position: upper-cased when it opens the text or follows a break. */
  function CapAt(l: string, i: nat): char
    requires i < |l|
  {
    if i == 0 || IsBreak(l[i - 1]) then UpperChar(l[i]) else l[i]
  }

  /** `TitleWords` written as one comprehension over the positions of its input. */
  lemma TitleWordsSeq(l: string)
    ensures TitleWords(l) == seq(|l|, i requires 0 <= i < |l| => CapAt(l, i))
  {
    TitleWordsIsCapFrom(l);
    if l != [] { CapFromAt(l, true, 0); }
    forall i | 0 <= i < |l| ensures CapFrom(l, true)[i] == CapAt(l, i) {
      CapFromAt(l, true, i);
    }
  }

  /** A non-empty word with no whitespace and no hyphen in it. */
  predicate PlainWord(w: string) {
    w != [] && forall i :: 0 <= i < |w| ==> !IsBreak(w[i])
  }

  /**
   * Plain words joined by single spaces or by single hyphens are capitalised
   * word by word: each gets an upper-case first character, and the
   * separators stay where they were.
   */
  lemma {:induction false} TitleWordsOfJoin(ws: seq<string>, sep: string)
    requires sep == " " || sep == "-"
    requires forall k :: 0 <= k < |ws| ==> PlainWord(ws[k])
    ensures TitleWords(Join(ws, sep)) == Join(CapParts(ws), sep)
  {
    TitleWordsIsCapFrom(Join(ws, sep));
    CapFromOfJoin(ws, sep);
  }

  lemma {:induction false} CapFromOfJoin(ws: seq<string>, sep: string)
    requires sep == " " || sep == "-"
    requires forall k :: 0 <= k < |ws| ==> PlainWord(ws[k])
    ensures CapFrom(Join(ws, sep), true) == Join(CapParts(ws), sep)
  {
    if |ws| == 1 {
      CapFirstIsCapFrom(ws[0]);
    } else if |ws| > 1 {
      var rest := ws[1..];
      CapFromOfJoin(rest, sep);
      CapFirstIsCapFrom(ws[0]);
      if sep == " " {
        CapFromAtSpaceRun(ws[0], " ", Join(rest, " "));
      } else {
        CapFromAtHyphen(ws[0], Join(rest, "-"));
      }
      assert CapParts(ws)[1..] == CapParts(rest);
    }
  }
}
