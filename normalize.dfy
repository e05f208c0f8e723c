/**
 * Name normalisation: `toTitleCaseSmart` and `normalizeStudentName`
 * (src/App.jsx:27-57, 71-73).
 *
 * After the capitalisation of module TitleCase, the source runs a chain of
 * `replace(/\bXxx\b/g, 'XXX')` calls and one case-insensitive
 * `replace(/\bAl[- ]?Muhajirin\b/gi, 'AlMuhajirin')`.  Every pattern begins
 * and ends with a word character, so `\b` on both sides means the match is a
 * whole maximal run of word characters.  The model therefore cuts the text
 * into tokens (maximal runs of word characters and maximal runs of other
 * characters) and rewrites tokens instead of running a regular-expression
 * engine.
 */
module Normalize {
  import opened Text
  import opened TitleCase

  // ---------------------------------------------------------------------
  // Tokens

  /** The text cut into maximal runs of word characters and of non-word characters. */
  function Tokens(s: string): seq<string>
    decreases |s|
  {
    if s == [] then []
    else
      var n := Span(s, Word, IsWordChar(s[0]));
      [s[..n]] + Tokens(s[n..])
  }

  /** A non-empty run of characters that are all word characters, or all not. */
  predicate Homogeneous(t: string) {
    t != [] && forall i :: 0 <= i < |t| ==> IsWordChar(t[i]) == IsWordChar(t[0])
  }

  predicate IsWordToken(t: string) {
    t != [] && IsWordChar(t[0])
  }

  /** Tokens that `Tokens` can produce next to each other: homogeneous, and alternating between words and non-words. */
  predicate Alternating(ts: seq<string>) {
    && (forall k :: 0 <= k < |ts| ==> Homogeneous(ts[k]))
    && (forall k :: 0 < k < |ts| ==> IsWordToken(ts[k - 1]) != IsWordToken(ts[k]))
  }

  lemma {:induction false} TokensStep(s: string) returns (n: nat)
    requires s != []
    ensures 0 < n <= |s|
    ensures Tokens(s) == [s[..n]] + Tokens(s[n..])
    ensures Homogeneous(s[..n])
    ensures n < |s| ==> IsWordChar(s[n]) != IsWordChar(s[0])
  {
    n := Span(s, Word, IsWordChar(s[0]));
    SpanFacts(s, Word, IsWordChar(s[0]));
    forall i | 0 <= i < n ensures IsWordChar(s[..n][i]) == IsWordChar(s[..n][0]) {
      assert InClass(s[i], Word) == IsWordChar(s[0]);
    }
  }

  /** Cutting into tokens loses nothing, and the tokens alternate between words and non-words. */
  lemma {:induction false} TokensPartition(s: string)
    ensures Concat(Tokens(s)) == s
    ensures Alternating(Tokens(s))
    ensures Tokens(s) != [] ==> Tokens(s)[0][0] == s[0]
    decreases |s|
  {
    if s != [] {
      var n := TokensStep(s);
      var rest := s[n..];
      TokensPartition(rest);
      var ts := Tokens(s);
      assert ts[1..] == Tokens(rest);
      assert s == s[..n] + rest;
      assert Concat(ts) == s[..n] + Concat(Tokens(rest));
      forall k | 0 < k < |ts| ensures IsWordToken(ts[k - 1]) != IsWordToken(ts[k]) {
        if k == 1 {
          assert ts[1][0] == rest[0] == s[n];
          assert ts[0][0] == s[0];
        } else {
          assert ts[k - 1] == Tokens(rest)[k - 2] && ts[k] == Tokens(rest)[k - 1];
        }
      }
      forall k | 0 <= k < |ts| ensures Homogeneous(ts[k]) {
        if k > 0 { assert ts[k] == Tokens(rest)[k - 1]; }
      }
    }
  }

  lemma ConcatHead(ts: seq<string>)
    requires ts != [] && ts[0] != []
    ensures Concat(ts) != [] && Concat(ts)[0] == ts[0][0]
    ensures Concat(ts) == ts[0] + Concat(ts[1..])
  {
  }

  /** Alternating tokens glued together are cut back into the same tokens. */
  lemma {:induction false} TokensOfAlternating(ts: seq<string>)
    requires Alternating(ts)
    ensures Tokens(Concat(ts)) == ts
  {
    if ts != [] {
      var t, rest := ts[0], ts[1..];
      assert Alternating(rest) by {
        forall k | 0 < k < |rest| ensures IsWordToken(rest[k - 1]) != IsWordToken(rest[k]) {
          assert rest[k - 1] == ts[k] && rest[k] == ts[k + 1];
        }
        forall k | 0 <= k < |rest| ensures Homogeneous(rest[k]) {
          assert rest[k] == ts[k + 1];
        }
      }
      TokensOfAlternating(rest);
      ConcatHead(ts);
      var c := Concat(rest);
      if rest != [] {
        assert Homogeneous(rest[0]);
        ConcatHead(rest);
        assert IsWordToken(ts[0]) != IsWordToken(ts[1]);
      }
      forall i | 0 <= i < |t| ensures InClass(t[i], Word) == IsWordChar(t[0]) {
        assert Homogeneous(ts[0]);
      }
      SpanConcat(t, c, Word, IsWordChar(t[0]));
      assert (t + c)[..|t|] == t && (t + c)[|t|..] == c;
    }
  }

  // ---------------------------------------------------------------------
  // Acronym fix-ups (src/App.jsx:41-52)

  /** The replacements in the order the source applies them: whole word on the left, replacement on the right. */
  const AcronymRules: seq<(string, string)> := [
    ("Sd", "SD"), ("Sds", "SDS"), ("Sdi", "SDI"), ("Sdit", "SDIT"), ("Smp", "SMP"),
    ("Smps", "SMPS"), ("Smpn", "SMPN"), ("Mtsn", "MTSN"), ("Upi", "UPI"), ("QlP", "QLP"),
    ("Uin", "UIN")
  ]

  /** A word run through the replacements one after another, as the chain of `replace` calls does. */
  function ApplyRules(w: string, rules: seq<(string, string)>): string
    decreases |rules|
  {
    if rules == [] then w
    else ApplyRules(if w == rules[0].0 then rules[0].1 else w, rules[1..])
  }

  function FixTokens(ts: seq<string>, rules: seq<(string, string)>): seq<string> {
    if ts == [] then [] else [ApplyRules(ts[0], rules)] + FixTokens(ts[1..], rules)
  }

  /** The chain of whole-word replacements of src/App.jsx:41-52 with table `rules`. */
  function FixAcronyms(s: string, rules: seq<(string, string)>): string {
    Concat(FixTokens(Tokens(s), rules))
  }

  /** The table's reading as a dictionary: the replacement of the first rule whose key is `w`, or `w`. */
  function Lookup(w: string, rules: seq<(string, string)>): string {
    if rules == [] then w else if w == rules[0].0 then rules[0].1 else Lookup(w, rules[1..])
  }

  /** No rule's replacement is the key of a later rule. */
  predicate NoChaining(rules: seq<(string, string)>) {
    forall i, j :: 0 <= i < j < |rules| ==> rules[i].1 != rules[j].0
  }

  lemma {:induction false} ApplyRulesNoKey(t: string, rules: seq<(string, string)>)
    requires forall j :: 0 <= j < |rules| ==> rules[j].0 != t
    ensures ApplyRules(t, rules) == t
  {
    if rules != [] {
      ApplyRulesNoKey(t, rules[1..]);
    }
  }

  /**
   * When no replacement feeds a later rule, running the replacements one
   * after another rewrites each word at most once, by the first rule whose
   * key it is.
   */
  lemma {:induction false} ApplyRulesIsLookup(w: string, rules: seq<(string, string)>)
    requires NoChaining(rules)
    ensures ApplyRules(w, rules) == Lookup(w, rules)
  {
    if rules != [] {
      if w == rules[0].0 {
        ApplyRulesNoKey(rules[0].1, rules[1..]);
      } else {
        ApplyRulesIsLookup(w, rules[1..]);
      }
    }
  }

  lemma AcronymRulesDoNotChain()
    ensures NoChaining(AcronymRules)
  {
  }

  lemma {:induction false} FixTokensAt(ts: seq<string>, rules: seq<(string, string)>)
    ensures |FixTokens(ts, rules)| == |ts|
    ensures forall k :: 0 <= k < |ts| ==> FixTokens(ts, rules)[k] == ApplyRules(ts[k], rules)
  {
    if ts != [] {
      FixTokensAt(ts[1..], rules);
    }
  }

  /** A non-empty string of word characters: what every key and replacement in the table is. */
  predicate IsWordString(w: string) {
    w != [] && forall i :: 0 <= i < |w| ==> IsWordChar(w[i])
  }

  predicate WordRules(rules: seq<(string, string)>) {
    forall j :: 0 <= j < |rules| ==> IsWordString(rules[j].0) && IsWordString(rules[j].1)
  }

  /** The replacements turn a word into a word and leave every non-word run alone. */
  lemma {:induction false} ApplyRulesKeepsClass(w: string, rules: seq<(string, string)>)
    requires WordRules(rules) && Homogeneous(w)
    ensures Homogeneous(ApplyRules(w, rules))
    ensures IsWordToken(ApplyRules(w, rules)) == IsWordToken(w)
    ensures !IsWordToken(w) ==> ApplyRules(w, rules) == w
    decreases |rules|
  {
    if rules != [] {
      var next := if w == rules[0].0 then rules[0].1 else w;
      assert Homogeneous(next) && IsWordToken(next) == IsWordToken(w) by {
        if w == rules[0].0 { assert IsWordString(rules[0].0) && IsWordString(rules[0].1); }
      }
      ApplyRulesKeepsClass(next, rules[1..]);
    }
  }

  lemma FixTokensAlternating(ts: seq<string>, rules: seq<(string, string)>)
    requires WordRules(rules) && Alternating(ts)
    ensures Alternating(FixTokens(ts, rules))
  {
    FixTokensAt(ts, rules);
    var fs := FixTokens(ts, rules);
    forall k | 0 <= k < |fs| ensures Homogeneous(fs[k]) && IsWordToken(fs[k]) == IsWordToken(ts[k]) {
      ApplyRulesKeepsClass(ts[k], rules);
    }
  }

  lemma AcronymRulesAreWords()
    ensures WordRules(AcronymRules)
  {
    var front, back := AcronymRules[..5], AcronymRules[5..];
    assert WordRules(front);
    assert WordRules(back);
    WordRulesAppend(front, back);
    assert front + back == AcronymRules;
  }

  lemma WordRulesAppend(a: seq<(string, string)>, b: seq<(string, string)>)
    requires WordRules(a) && WordRules(b)
    ensures WordRules(a + b)
  {
    forall j | 0 <= j < |a + b| ensures IsWordString((a + b)[j].0) && IsWordString((a + b)[j].1) {
      if j < |a| { assert (a + b)[j] == a[j]; } else { assert (a + b)[j] == b[j - |a|]; }
    }
  }

  /**
   * The fix-ups work on whole words only: the fixed text is cut into tokens
   * at exactly the same places as the input, and each token is replaced by
   * the table entry whose key is the entire token (non-word tokens, and
   * words such as `Sdi` inside `Sdit` that are not entire tokens, are left
   * alone).
   */
  lemma AcronymsWholeWords(s: string)
    ensures |Tokens(FixAcronyms(s, AcronymRules))| == |Tokens(s)|
    ensures forall k :: 0 <= k < |Tokens(s)| ==>
      Tokens(FixAcronyms(s, AcronymRules))[k] == Lookup(Tokens(s)[k], AcronymRules)
  {
    AcronymRulesAreWords();
    AcronymRulesDoNotChain();
    WholeWords(s, AcronymRules);
  }

  /** `AcronymsWholeWords` for any table of words in which no replacement feeds a later rule. */
  lemma WholeWords(s: string, rules: seq<(string, string)>)
    requires WordRules(rules) && NoChaining(rules)
    ensures |Tokens(FixAcronyms(s, rules))| == |Tokens(s)|
    ensures forall k :: 0 <= k < |Tokens(s)| ==> Tokens(FixAcronyms(s, rules))[k] == Lookup(Tokens(s)[k], rules)
  {
    var ts := Tokens(s);
    TokensPartition(s);
    FixTokensAlternating(ts, rules);
    TokensOfAlternating(FixTokens(ts, rules));
    FixTokensAt(ts, rules);
    forall k | 0 <= k < |ts| ensures ApplyRules(ts[k], rules) == Lookup(ts[k], rules) {
      ApplyRulesIsLookup(ts[k], rules);
    }
  }

  // ---------------------------------------------------------------------
  // The `QlP` rule (src/App.jsx:51) is case-sensitive, and title-cased text
  // never has an upper-case letter right after a word character, so the
  // rule cannot fire.

  /** No upper-case letter directly after a word character. */
  predicate TitleShaped(t: string) {
    forall i :: 0 < i < |t| && IsWordChar(t[i - 1]) ==> !IsUpper(t[i])
  }

  lemma LowerCharNotUpper(c: char)
    ensures !IsUpper(LowerChar(c))
  {
  }

  lemma CapAtShaped(l: string, i: nat)
    requires 0 < i < |l| && IsWordChar(CapAt(l, i - 1))
    requires forall j :: 0 <= j < |l| ==> !IsUpper(l[j])
    ensures !IsUpper(CapAt(l, i))
  {
    if IsBreak(l[i - 1]) {
      BreakIsCaseless(l[i - 1]);
    }
  }

  lemma TitleWordsShaped(input: string)
    ensures TitleShaped(TitleWords(Lower(input)))
  {
    var l := Lower(input);
    TitleWordsSeq(l);
    forall j | 0 <= j < |l| ensures !IsUpper(l[j]) {
      LowerCharNotUpper(input[j]);
    }
    forall i | 0 < i < |l| && IsWordChar(CapAt(l, i - 1)) ensures !IsUpper(CapAt(l, i)) {
      CapAtShaped(l, i);
    }
  }

  lemma {:induction false} TokensShaped(s: string)
    requires TitleShaped(s)
    ensures forall k :: 0 <= k < |Tokens(s)| ==> TitleShaped(Tokens(s)[k])
    decreases |s|
  {
    if s != [] {
      var n := TokensStep(s);
      var rest := s[n..];
      assert TitleShaped(rest) by {
        forall i | 0 < i < |rest| && IsWordChar(rest[i - 1]) ensures !IsUpper(rest[i]) {
          assert rest[i - 1] == s[n + i - 1] && rest[i] == s[n + i];
        }
      }
      TokensShaped(rest);
      forall k | 0 <= k < |Tokens(s)| ensures TitleShaped(Tokens(s)[k]) {
        if k > 0 {
          assert Tokens(s)[k] == Tokens(rest)[k - 1];
        }
      }
    }
  }

  lemma {:induction false} FixTokensCongruent(ts: seq<string>, r1: seq<(string, string)>, r2: seq<(string, string)>)
    requires forall k :: 0 <= k < |ts| ==> ApplyRules(ts[k], r1) == ApplyRules(ts[k], r2)
    ensures FixTokens(ts, r1) == FixTokens(ts, r2)
  {
    if ts != [] {
      FixTokensCongruent(ts[1..], r1, r2);
    }
  }

  /** A rule whose key is neither the word nor produced by an earlier rule can be dropped. */
  lemma {:induction false} ApplyRulesSkip(w: string, pre: seq<(string, string)>, r: (string, string), post: seq<(string, string)>)
    requires w != r.0
    requires forall j :: 0 <= j < |pre| ==> pre[j].1 != r.0
    ensures ApplyRules(w, pre + [r] + post) == ApplyRules(w, pre + post)
    decreases |pre|
  {
    if pre == [] {
      assert pre + [r] + post == [r] + post;
      assert ([r] + post)[1..] == post;
      assert pre + post == post;
    } else {
      var next := if w == pre[0].0 then pre[0].1 else w;
      assert (pre + [r] + post)[0] == pre[0] && (pre + post)[0] == pre[0];
      assert (pre + [r] + post)[1..] == pre[1..] + [r] + post;
      assert (pre + post)[1..] == pre[1..] + post;
      ApplyRulesSkip(next, pre[1..], r, post);
    }
  }

  /** The table splits around its `QlP` rule, and no earlier rule produces `QlP`. */
  lemma QlpSplit()
    ensures AcronymRules == AcronymRules[..9] + [AcronymRules[9]] + AcronymRules[10..]
    ensures AcronymRules[9].0 == "QlP"
    ensures forall j :: 0 <= j < |AcronymRules[..9]| ==> AcronymRules[..9][j].1 != "QlP"
  {
  }

  lemma QlpNotShaped()
    ensures !TitleShaped("QlP")
  {
    assert IsWordChar("QlP"[1]) && IsUpper("QlP"[2]);
  }

  /**
   * The `QlP` fix-up never fires: no token of the capitalised text is `QlP`,
   * so the fix-ups with that rule give the same text as the fix-ups without it.
   */
  lemma QlpRuleNeverFires(input: string)
    ensures forall k :: 0 <= k < |Tokens(TitleWords(Lower(input)))| ==> Tokens(TitleWords(Lower(input)))[k] != "QlP"
    ensures FixAcronyms(TitleWords(Lower(input)), AcronymRules)
         == FixAcronyms(TitleWords(Lower(input)), AcronymRules[..9] + AcronymRules[10..])
  {
    var t := TitleWords(Lower(input));
    var ts := Tokens(t);
    var pre, r, post := AcronymRules[..9], AcronymRules[9], AcronymRules[10..];
    TitleWordsShaped(input);
    TokensShaped(t);
    QlpNotShaped();
    QlpSplit();
    forall k | 0 <= k < |ts| ensures ApplyRules(ts[k], pre + [r] + post) == ApplyRules(ts[k], pre + post) {
      ApplyRulesSkip(ts[k], pre, r, post);
    }
    FixTokensCongruent(ts, pre + [r] + post, pre + post);
  }

  // ---------------------------------------------------------------------
  // The AlMuhajirin fix-up (src/App.jsx:55)

  /**
   * `replace(/\bAl[- ]?Muhajirin\b/gi, 'AlMuhajirin')` over the token list:
   * a word token that is `almuhajirin` in any case, or the three tokens
   * `al`, a single space or hyphen, `muhajirin` (in any case), become the one
   * word `AlMuhajirin`; matches are taken left to right without overlap.
   */
  function Collapse(ts: seq<string>): string {
    if ts == [] then ""
    else if Lower(ts[0]) == "almuhajirin" then "AlMuhajirin" + Collapse(ts[1..])
    else if |ts| >= 3 && Lower(ts[0]) == "al" && (ts[1] == " " || ts[1] == "-") && Lower(ts[2]) == "muhajirin"
    then "AlMuhajirin" + Collapse(ts[3..])
    else ts[0] + Collapse(ts[1..])
  }

  /** No token is `al` or `almuhajirin` in any case, so no match can start anywhere. */
  predicate NoAlToken(ts: seq<string>) {
    forall k :: 0 <= k < |ts| ==> Lower(ts[k]) != "al" && Lower(ts[k]) != "almuhajirin"
  }

  lemma NoAlTokenTail(ts: seq<string>)
    requires ts != [] && NoAlToken(ts)
    ensures NoAlToken(ts[1..])
  {
    forall k | 0 <= k < |ts| - 1 ensures Lower(ts[1..][k]) != "al" && Lower(ts[1..][k]) != "almuhajirin" {
      assert ts[1..][k] == ts[k + 1];
    }
  }

  /** Tokens before any match go through the fix-up unchanged, whatever follows them. */
  lemma {:induction false} CollapsePrefix(pre: seq<string>, rest: seq<string>)
    requires NoAlToken(pre)
    ensures Collapse(pre + rest) == Concat(pre) + Collapse(rest)
    decreases |pre|
  {
    var ts := pre + rest;
    if pre == [] {
      assert ts == rest;
    } else {
      NoAlTokenTail(pre);
      CollapsePrefix(pre[1..], rest);
      assert ts[0] == pre[0] && ts[1..] == pre[1..] + rest;
      AppendAssoc(pre[0], Concat(pre[1..]), Collapse(rest));
    }
  }

  /** Text without a match goes through the fix-up unchanged. */
  lemma {:induction false} CollapseNoMatch(ts: seq<string>)
    requires NoAlToken(ts)
    ensures Collapse(ts) == Concat(ts)
  {
    CollapsePrefix(ts, []);
    assert ts + [] == ts;
  }

  /**
   * The first match, `al`, a single space or hyphen, `muhajirin` in any
   * case, becomes `AlMuhajirin`; the tokens before it are kept and the
   * fix-up goes on after it.
   */
  lemma CollapseTriple(pre: seq<string>, a: string, sep: string, m: string, post: seq<string>)
    requires Lower(a) == "al" && (sep == " " || sep == "-") && Lower(m) == "muhajirin"
    requires NoAlToken(pre)
    ensures Collapse(pre + [a, sep, m] + post) == Concat(pre) + "AlMuhajirin" + Collapse(post)
  {
    var r := [a, sep, m] + post;
    CollapsePrefix(pre, r);
    assert pre + [a, sep, m] + post == pre + r;
    assert r[0] == a && r[1] == sep && r[2] == m && r[3..] == post;
    AppendAssoc(Concat(pre), "AlMuhajirin", Collapse(post));
  }

  /** The first match, a single word `almuhajirin` in any case, becomes `AlMuhajirin` likewise. */
  lemma CollapseWord(pre: seq<string>, w: string, post: seq<string>)
    requires Lower(w) == "almuhajirin"
    requires NoAlToken(pre)
    ensures Collapse(pre + [w] + post) == Concat(pre) + "AlMuhajirin" + Collapse(post)
  {
    var r := [w] + post;
    CollapsePrefix(pre, r);
    assert pre + [w] + post == pre + r;
    assert r[0] == w && r[1..] == post;
    AppendAssoc(Concat(pre), "AlMuhajirin", Collapse(post));
  }

  // ---------------------------------------------------------------------
  // The whole normaliser

  /** `toTitleCaseSmart` (src/App.jsx:27-57). */
  function TitleCaseSmart(input: string): string {
    if input == "" then input
    else
      var cap := TitleWords(Lower(input));
      var out := FixAcronyms(cap, AcronymRules);
      Collapse(Tokens(out))
  }

  /** `normalizeStudentName` (src/App.jsx:71-73). */
  function NormalizeStudentName(name: string): string {
    TitleCaseSmart(name)
  }

  /** `fs` is what the acronym table makes of `ts`, token by token. */
  predicate LookedUp(ts: seq<string>, fs: seq<string>) {
    |ts| == |fs| && (ts != [] ==> fs[0] == Lookup(ts[0], AcronymRules) && LookedUp(ts[1..], fs[1..]))
  }

  lemma {:induction false} LookedUpAt(ts: seq<string>, fs: seq<string>)
    requires LookedUp(ts, fs)
    ensures forall k :: 0 <= k < |ts| ==> fs[k] == Lookup(ts[k], AcronymRules)
  {
    if ts != [] {
      LookedUpAt(ts[1..], fs[1..]);
      forall k | 1 <= k < |ts| ensures fs[k] == Lookup(ts[k], AcronymRules) {
        assert fs[1..][k - 1] == fs[k] && ts[1..][k - 1] == ts[k];
      }
    }
  }

  /** The fixed text's tokens, given the input's tokens and what the table makes of each. */
  lemma FixedByLookup(c: string, ts: seq<string>, fs: seq<string>)
    requires Tokens(c) == ts
    requires LookedUp(ts, fs)
    ensures Tokens(FixAcronyms(c, AcronymRules)) == fs
  {
    LookedUpAt(ts, fs);
    AcronymsWholeWords(c);
  }

  /** Could be a key of the acronym table: one to four characters, starting with `S`, `M`, `U` or `Q`. */
  predicate MaybeAcronym(w: string) {
    0 < |w| <= 4 && (w[0] == 'S' || w[0] == 'M' || w[0] == 'U' || w[0] == 'Q')
  }

  lemma AcronymKeysShape()
    ensures forall j :: 0 <= j < |AcronymRules| ==> MaybeAcronym(AcronymRules[j].0)
  {
  }

  lemma {:induction false} LookupNoKey(w: string, rules: seq<(string, string)>)
    requires forall j :: 0 <= j < |rules| ==> rules[j].0 != w
    ensures Lookup(w, rules) == w
  {
    if rules != [] {
      LookupNoKey(w, rules[1..]);
    }
  }

  /** A token that cannot be a key is left alone by the table. */
  lemma NotAcronym(w: string)
    requires !MaybeAcronym(w)
    ensures Lookup(w, AcronymRules) == w
  {
    AcronymKeysShape();
    LookupNoKey(w, AcronymRules);
  }

  // ---------------------------------------------------------------------
  // Worked examples

  /** Empty text comes back unchanged. */
  lemma EmptyNameUnchanged()
    ensures TitleCaseSmart("") == ""
  {
  }

  lemma JoinTwo(a: string, b: string, sep: string)
    ensures Join([a, b], sep) == a + sep + b
  {
    assert [a, b][1..] == [b];
  }

  lemma JoinThree(a: string, b: string, c: string, sep: string)
    ensures Join([a, b, c], sep) == a + sep + (b + sep + c)
  {
    assert [a, b, c][1..] == [b, c];
    JoinTwo(b, c, sep);
  }

  lemma CapPartsTwo(a: string, b: string)
    ensures CapParts([a, b]) == [CapFirst(a), CapFirst(b)]
  {
    assert [a, b][1..] == [b];
    assert CapParts([b]) == [CapFirst(b)] by { assert [b][1..] == []; }
  }

  lemma CapPartsThree(a: string, b: string, c: string)
    ensures CapParts([a, b, c]) == [CapFirst(a), CapFirst(b), CapFirst(c)]
  {
    assert [a, b, c][1..] == [b, c];
    CapPartsTwo(b, c);
  }

  lemma SditWords()
    ensures Join(["sdit", "nurul", "iman"], " ") == "sdit nurul iman"
    ensures CapParts(["sdit", "nurul", "iman"]) == ["Sdit", "Nurul", "Iman"]
    ensures Join(["Sdit", "Nurul", "Iman"], " ") == "Sdit Nurul Iman"
  {
    JoinThree("sdit", "nurul", "iman", " ");
    JoinThree("Sdit", "Nurul", "Iman", " ");
    CapPartsThree("sdit", "nurul", "iman");
    assert CapFirst("sdit") == "Sdit";
    assert CapFirst("nurul") == "Nurul";
    assert CapFirst("iman") == "Iman";
  }

  lemma SditCap(l: string)
    requires l == "sdit nurul iman"
    ensures TitleWords(l) == "Sdit Nurul Iman"
  {
    SditWords();
    TitleWordsOfJoin(["sdit", "nurul", "iman"], " ");
  }

  lemma SditConcat()
    ensures Concat(["Sdit", " ", "Nurul", " ", "Iman"]) == "Sdit Nurul Iman"
  {
  }

  lemma WordTokenOf(w: string)
    requires IsWordString(w)
    ensures Homogeneous(w) && IsWordToken(w)
  {
  }

  lemma SeparatorToken(sep: string)
    requires sep == " " || sep == "-"
    ensures Homogeneous(sep) && !IsWordToken(sep)
  {
  }

  lemma AlternatingFive(ts: seq<string>)
    requires |ts| == 5 && forall k :: 0 <= k < 5 ==> Homogeneous(ts[k])
    requires IsWordToken(ts[0]) && !IsWordToken(ts[1]) && IsWordToken(ts[2]) && !IsWordToken(ts[3]) && IsWordToken(ts[4])
    ensures Alternating(ts)
  {
  }

  lemma SditAlternating()
    ensures Alternating(["Sdit", " ", "Nurul", " ", "Iman"])
  {
    WordTokenOf("Sdit");
    WordTokenOf("Nurul");
    WordTokenOf("Iman");
    SeparatorToken(" ");
    AlternatingFive(["Sdit", " ", "Nurul", " ", "Iman"]);
  }

  lemma SditTokens(c: string)
    requires c == "Sdit Nurul Iman"
    ensures Tokens(c) == ["Sdit", " ", "Nurul", " ", "Iman"]
  {
    SditConcat();
    SditAlternating();
    TokensOfAlternating(["Sdit", " ", "Nurul", " ", "Iman"]);
  }

  lemma SditLookups()
    ensures Lookup("Sdit", AcronymRules) == "SDIT"
    ensures Lookup(" ", AcronymRules) == " "
    ensures Lookup("Nurul", AcronymRules) == "Nurul"
    ensures Lookup("Iman", AcronymRules) == "Iman"
  {
    NotAcronym(" ");
    NotAcronym("Nurul");
    NotAcronym("Iman");
  }

  lemma SditFixed(c: string)
    requires c == "Sdit Nurul Iman"
    ensures Tokens(FixAcronyms(c, AcronymRules)) == ["SDIT", " ", "Nurul", " ", "Iman"]
  {
    SditTokens(c);
    SditLookups();
    LookedUpCons("Iman", [], "Iman", []);
    LookedUpCons(" ", ["Iman"], " ", ["Iman"]);
    LookedUpCons("Nurul", [" ", "Iman"], "Nurul", [" ", "Iman"]);
    LookedUpCons(" ", ["Nurul", " ", "Iman"], " ", ["Nurul", " ", "Iman"]);
    LookedUpCons("Sdit", [" ", "Nurul", " ", "Iman"], "SDIT", [" ", "Nurul", " ", "Iman"]);
    FixedByLookup(c, ["Sdit", " ", "Nurul", " ", "Iman"], ["SDIT", " ", "Nurul", " ", "Iman"]);
  }

  lemma LookedUpCons(t: string, ts: seq<string>, f: string, fs: seq<string>)
    requires f == Lookup(t, AcronymRules) && LookedUp(ts, fs)
    ensures LookedUp([t] + ts, [f] + fs)
  {
    assert ([t] + ts)[1..] == ts && ([f] + fs)[1..] == fs;
  }

  lemma SditCollapse()
    ensures Collapse(["SDIT", " ", "Nurul", " ", "Iman"]) == "SDIT Nurul Iman"
  {
  }

  /** `sdit nurul iman`, in any case, becomes `SDIT Nurul Iman`: `Sdi` inside `Sdit` is not touched. */
  lemma SditExample(x: string)
    requires Lower(x) == "sdit nurul iman"
    ensures TitleCaseSmart(x) == "SDIT Nurul Iman"
  {
    SditCap(Lower(x));
    SditFixed(TitleWords(Lower(x)));
    SditCollapse();
  }

  lemma AlWords(sep: string)
    requires sep == " " || sep == "-"
    ensures Join(["al", "muhajirin"], sep) == "al" + sep + "muhajirin"
    ensures CapParts(["al", "muhajirin"]) == ["Al", "Muhajirin"]
    ensures Join(["Al", "Muhajirin"], sep) == "Al" + sep + "Muhajirin"
    ensures PlainWord("al") && PlainWord("muhajirin")
  {
    JoinTwo("al", "muhajirin", sep);
    JoinTwo("Al", "Muhajirin", sep);
    CapPartsTwo("al", "muhajirin");
    assert CapFirst("al") == "Al";
    assert CapFirst("muhajirin") == "Muhajirin";
  }

  lemma AlCap(l: string, sep: string)
    requires sep == " " || sep == "-"
    requires l == "al" + sep + "muhajirin"
    ensures TitleWords(l) == "Al" + sep + "Muhajirin"
  {
    AlWords(sep);
    TitleWordsOfJoin(["al", "muhajirin"], sep);
  }

  lemma AlTokens(c: string, sep: string)
    requires sep == " " || sep == "-"
    requires c == "Al" + sep + "Muhajirin"
    ensures Tokens(c) == ["Al", sep, "Muhajirin"]
  {
    assert Concat(["Al", sep, "Muhajirin"]) == c by {
      assert ["Al", sep, "Muhajirin"][1..] == [sep, "Muhajirin"];
      assert [sep, "Muhajirin"][1..] == ["Muhajirin"];
      assert Concat(["Muhajirin"]) == "Muhajirin";
    }
    assert Alternating(["Al", sep, "Muhajirin"]);
    TokensOfAlternating(["Al", sep, "Muhajirin"]);
  }

  lemma AlLookups()
    ensures Lookup("Al", AcronymRules) == "Al"
    ensures Lookup(" ", AcronymRules) == " "
    ensures Lookup("-", AcronymRules) == "-"
    ensures Lookup("Muhajirin", AcronymRules) == "Muhajirin"
    ensures Lookup("Almuhajirin", AcronymRules) == "Almuhajirin"
  {
    NotAcronym("Al");
    NotAcronym(" ");
    NotAcronym("-");
    NotAcronym("Muhajirin");
    NotAcronym("Almuhajirin");
  }

  lemma AlLookedUp(sep: string)
    requires sep == " " || sep == "-"
    ensures LookedUp(["Al", sep, "Muhajirin"], ["Al", sep, "Muhajirin"])
  {
    AlLookups();
    var ts := ["Al", sep, "Muhajirin"];
    assert LookedUp(ts[2..], ts[2..]) by { assert ts[2..][1..] == []; }
    assert LookedUp(ts[1..], ts[1..]) by { assert ts[1..][1..] == ts[2..]; }
  }

  lemma AlFixed(c: string, sep: string)
    requires sep == " " || sep == "-"
    requires c == "Al" + sep + "Muhajirin"
    ensures Tokens(FixAcronyms(c, AcronymRules)) == ["Al", sep, "Muhajirin"]
  {
    AlTokens(c, sep);
    assert LookedUp(["Al", sep, "Muhajirin"], ["Al", sep, "Muhajirin"]) by { AlLookedUp(sep); }
    FixedByLookup(c, ["Al", sep, "Muhajirin"], ["Al", sep, "Muhajirin"]);
  }

  lemma AlCollapse(sep: string)
    requires sep == " " || sep == "-"
    ensures Collapse(["Al", sep, "Muhajirin"]) == "AlMuhajirin"
  {
    assert Lower("Al") == "al" && Lower("Muhajirin") == "muhajirin";
    assert Lower("Al") != "almuhajirin";
    assert ["Al", sep, "Muhajirin"][3..] == [];
  }

  /** `al muhajirin` and `al-muhajirin`, in any case (so also `AL MUHAJIRIN` and `Al-Muhajirin`), become `AlMuhajirin`. */
  lemma AlMuhajirinSeparatedExample(x: string, sep: string)
    requires sep == " " || sep == "-"
    requires Lower(x) == "al" + sep + "muhajirin"
    ensures TitleCaseSmart(x) == "AlMuhajirin"
  {
    AlCap(Lower(x), sep);
    AlFixed(TitleWords(Lower(x)), sep);
    AlCollapse(sep);
  }

  lemma AlJoinedWords()
    ensures Join(["almuhajirin"], " ") == "almuhajirin"
    ensures CapParts(["almuhajirin"]) == ["Almuhajirin"]
    ensures Join(["Almuhajirin"], " ") == "Almuhajirin"
    ensures PlainWord("almuhajirin")
  {
    JoinOne("almuhajirin", " ");
    JoinOne("Almuhajirin", " ");
    assert ["almuhajirin"][1..] == [];
    assert CapFirst("almuhajirin") == "Almuhajirin";
  }

  lemma JoinOne(w: string, sep: string)
    ensures Join([w], sep) == w
  {
  }

  lemma AlJoinedCap(l: string)
    requires l == "almuhajirin"
    ensures TitleWords(l) == "Almuhajirin"
  {
    AlJoinedWords();
    TitleWordsOfJoin(["almuhajirin"], " ");
  }

  lemma AlJoinedFixed(c: string)
    requires c == "Almuhajirin"
    ensures Tokens(FixAcronyms(c, AcronymRules)) == ["Almuhajirin"]
  {
    assert Concat(["Almuhajirin"]) == c;
    assert Alternating(["Almuhajirin"]);
    TokensOfAlternating(["Almuhajirin"]);
    NotAcronym("Almuhajirin");
    FixedByLookup(c, ["Almuhajirin"], ["Almuhajirin"]);
  }

  /** `almuhajirin`, in any case, becomes `AlMuhajirin`. */
  lemma AlMuhajirinJoinedExample(x: string)
    requires Lower(x) == "almuhajirin"
    ensures TitleCaseSmart(x) == "AlMuhajirin"
  {
    AlJoinedCap(Lower(x));
    AlJoinedFixed(TitleWords(Lower(x)));
    AlJoinedCollapse();
  }

  lemma AlJoinedCollapse()
    ensures Collapse(["Almuhajirin"]) == "AlMuhajirin"
  {
    assert Lower("Almuhajirin") == "almuhajirin";
  }
}
