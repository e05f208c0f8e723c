/**
 * `toTitleCaseSmart` (src/App.jsx:27-57) read token by token.
 *
 * Lower-casing, capitalising and the acronym table never move a `\b` word
 * boundary, and what they make of one token depends only on the lowered
 * token and on whether the character before it is whitespace or a hyphen.
 * `Pass` states the whole normaliser on the tokens of the lowered text, and
 * `TitleCaseByTokens` proves that it is `TitleCaseSmart`.
 *
 * The second pass of the normaliser sees the lowered first result, whose
 * tokens are the lowered tokens with each separated `al muhajirin` merged
 * into one token (`Merge`); `Pass` gives the same text for both, so
 * normalising twice gives what normalising once gives.
 */
module TokenView {
  import opened Text
  import opened TitleCase
  import opened Normalize

  /** Text with no upper-case ASCII letter, as every lowered text is. */
  predicate NoUpper(s: string) {
    forall i :: 0 <= i < |s| ==> !IsUpper(s[i])
  }

  /** The lowered tokens start with the separated spelling `al`, a space or hyphen, `muhajirin`. */
  predicate SplitAlAt(ts: seq<string>) {
    |ts| >= 3 && ts[0] == "al" && (ts[1] == " " || ts[1] == "-") && ts[2] == "muhajirin"
  }

  /** A lowered token capitalised (after a break iff `b`) and run through the acronym table. */
  function FixedToken(t: string, b: bool): string {
    Lookup(CapFrom(t, b), AcronymRules)
  }

  /** The normaliser on the tokens of the lowered text; `b` says whether the text so far ends in a break. */
  function Pass(ts: seq<string>, b: bool): string
    decreases |ts|
  {
    if ts == [] then ""
    else if ts[0] == "almuhajirin" then "AlMuhajirin" + Pass(ts[1..], false)
    else if SplitAlAt(ts) then "AlMuhajirin" + Pass(ts[3..], false)
    else FixedToken(ts[0], b) + Pass(ts[1..], After(ts[0], b))
  }

  /** The lowered tokens with every separated `al muhajirin` merged into the one token `almuhajirin`. */
  function Merge(ts: seq<string>): seq<string>
    decreases |ts|
  {
    if ts == [] then []
    else if SplitAlAt(ts) then ["almuhajirin"] + Merge(ts[3..])
    else [ts[0]] + Merge(ts[1..])
  }

  /** The tokens each capitalised according to the character before them. */
  function CapTokens(ts: seq<string>, b: bool): seq<string>
    decreases |ts|
  {
    if ts == [] then [] else [CapFrom(ts[0], b)] + CapTokens(ts[1..], After(ts[0], b))
  }

  // ---------------------------------------------------------------------
  // Characters and single tokens

  lemma LowerAppend(a: string, b: string)
    ensures Lower(a + b) == Lower(a) + Lower(b)
  {
    assert forall i :: 0 <= i < |a + b| ==> Lower(a + b)[i] == (Lower(a) + Lower(b))[i];
  }

  lemma LowerNoUpper(s: string)
    ensures NoUpper(Lower(s))
  {
    forall i | 0 <= i < |s| ensures !IsUpper(Lower(s)[i]) {
      LowerCharNotUpper(s[i]);
    }
  }

  lemma {:induction false} ConcatNoUpper(ts: seq<string>)
    requires NoUpper(Concat(ts))
    ensures forall k :: 0 <= k < |ts| ==> NoUpper(ts[k])
  {
    if ts != [] {
      var c := Concat(ts[1..]);
      assert Concat(ts) == ts[0] + c;
      assert NoUpper(ts[0]) by {
        forall i | 0 <= i < |ts[0]| ensures !IsUpper(ts[0][i]) { assert (ts[0] + c)[i] == ts[0][i]; }
      }
      assert NoUpper(c) by {
        forall i | 0 <= i < |c| ensures !IsUpper(c[i]) { assert (ts[0] + c)[|ts[0]| + i] == c[i]; }
      }
      ConcatNoUpper(ts[1..]);
      forall k | 1 <= k < |ts| ensures NoUpper(ts[k]) { assert ts[k] == ts[1..][k - 1]; }
    }
  }

  lemma ConcatCons(t: string, rest: seq<string>)
    ensures Concat([t] + rest) == t + Concat(rest)
  {
    assert ([t] + rest)[1..] == rest;
  }

  /** Capitalising keeps each character's class, and a token without word characters is not changed. */
  lemma CapFromClass(t: string, b: bool)
    ensures |CapFrom(t, b)| == |t|
    ensures forall i :: 0 <= i < |t| ==> IsWordChar(CapFrom(t, b)[i]) == IsWordChar(t[i])
    ensures (forall i :: 0 <= i < |t| ==> !IsWordChar(t[i])) ==> CapFrom(t, b) == t
  {
    if t != [] {
      CapFromAt(t, b, 0);
      forall i | 0 <= i < |t| ensures IsWordChar(CapFrom(t, b)[i]) == IsWordChar(t[i])
        && (!IsWordChar(t[i]) ==> CapFrom(t, b)[i] == t[i]) {
        CapFromAt(t, b, i);
      }
    }
  }

  /** Lower-casing a capitalised lowered token gives the token back. */
  lemma CapFromLower(t: string, b: bool)
    requires NoUpper(t)
    ensures Lower(CapFrom(t, b)) == t
  {
    if t != [] {
      CapFromAt(t, b, 0);
      forall i | 0 <= i < |t| ensures Lower(CapFrom(t, b))[i] == t[i] {
        CapFromAt(t, b, i);
      }
    }
  }

  /** Every acronym and its replacement agree up to case. */
  predicate SameLower(rules: seq<(string, string)>) {
    forall j :: 0 <= j < |rules| ==> Lower(rules[j].0) == Lower(rules[j].1)
  }

  lemma SameLowerAppend(a: seq<(string, string)>, b: seq<(string, string)>)
    requires SameLower(a) && SameLower(b)
    ensures SameLower(a + b)
  {
    forall j | 0 <= j < |a + b| ensures Lower((a + b)[j].0) == Lower((a + b)[j].1) {
      if j < |a| { assert (a + b)[j] == a[j]; } else { assert (a + b)[j] == b[j - |a|]; }
    }
  }

  lemma AcronymRulesSameLower()
    ensures SameLower(AcronymRules)
  {
    var front, back := AcronymRules[..5], AcronymRules[5..];
    assert SameLower(front);
    assert SameLower(back);
    SameLowerAppend(front, back);
    assert front + back == AcronymRules;
  }

  lemma {:induction false} LookupLower(w: string, rules: seq<(string, string)>)
    requires SameLower(rules)
    ensures Lower(Lookup(w, rules)) == Lower(w)
  {
    if rules != [] && w != rules[0].0 {
      LookupLower(w, rules[1..]);
    }
  }

  /** A fixed token lowers back to the lowered token it came from. */
  lemma FixedTokenLower(t: string, b: bool)
    requires NoUpper(t)
    ensures Lower(FixedToken(t, b)) == t
  {
    AcronymRulesSameLower();
    LookupLower(CapFrom(t, b), AcronymRules);
    CapFromLower(t, b);
  }

  /** A token without word characters goes through unchanged. */
  lemma FixedTokenNonWord(t: string, b: bool)
    requires forall i :: 0 <= i < |t| ==> !IsWordChar(t[i])
    ensures FixedToken(t, b) == t
  {
    CapFromClass(t, b);
    AcronymRulesAreWords();
    forall j | 0 <= j < |AcronymRules| ensures AcronymRules[j].0 != t {
      assert IsWordString(AcronymRules[j].0);
    }
    LookupNoKey(t, AcronymRules);
  }

  /** A single space or hyphen goes through unchanged. */
  lemma FixedTokenSeparator(t: string, b: bool)
    requires t == " " || t == "-"
    ensures FixedToken(t, b) == t
  {
    CapFromClass(t, b);
    AcronymRulesAreWords();
    forall j | 0 <= j < |AcronymRules| ensures AcronymRules[j].0 != t {
      assert IsWordString(AcronymRules[j].0);
    }
    LookupNoKey(t, AcronymRules);
  }

  /** `muhajirin` and `almuhajirin` end in a letter, so the token after them is not capitalised. */
  lemma AfterMuhajirin(b: bool)
    ensures After("muhajirin", b) == false && After("almuhajirin", b) == false
  {
    assert "muhajirin"[8] == 'n' && "almuhajirin"[10] == 'n';
  }

  // ---------------------------------------------------------------------
  // Token lists

  lemma AlternatingCons(t: string, rest: seq<string>)
    requires Homogeneous(t) && Alternating(rest)
    requires rest != [] ==> IsWordToken(t) != IsWordToken(rest[0])
    ensures Alternating([t] + rest)
  {
    var ts := [t] + rest;
    forall k | 0 < k < |ts| ensures IsWordToken(ts[k - 1]) != IsWordToken(ts[k]) {
      if k > 1 { assert ts[k - 1] == rest[k - 2] && ts[k] == rest[k - 1]; }
    }
    forall k | 0 <= k < |ts| ensures Homogeneous(ts[k]) {
      if k > 0 { assert ts[k] == rest[k - 1]; }
    }
  }

  lemma AlternatingTail(ts: seq<string>)
    requires Alternating(ts) && ts != []
    ensures Homogeneous(ts[0]) && Alternating(ts[1..])
    ensures |ts| > 1 ==> IsWordToken(ts[0]) != IsWordToken(ts[1])
  {
    var rest := ts[1..];
    forall k | 0 < k < |rest| ensures IsWordToken(rest[k - 1]) != IsWordToken(rest[k]) {
      assert rest[k - 1] == ts[k] && rest[k] == ts[k + 1];
    }
    forall k | 0 <= k < |rest| ensures Homogeneous(rest[k]) {
      assert rest[k] == ts[k + 1];
    }
  }

  /** Capitalising character by character is capitalising token by token. */
  lemma {:induction false} CapFromConcat(ts: seq<string>, b: bool)
    ensures CapFrom(Concat(ts), b) == Concat(CapTokens(ts, b))
  {
    if ts != [] {
      CapFromAppend(ts[0], Concat(ts[1..]), b);
      CapFromConcat(ts[1..], After(ts[0], b));
      ConcatCons(CapFrom(ts[0], b), CapTokens(ts[1..], After(ts[0], b)));
    }
  }

  lemma {:induction false} CapTokensAlternating(ts: seq<string>, b: bool)
    requires Alternating(ts)
    ensures Alternating(CapTokens(ts, b))
    ensures |CapTokens(ts, b)| == |ts|
  {
    if ts != [] {
      var c, rest := CapFrom(ts[0], b), CapTokens(ts[1..], After(ts[0], b));
      AlternatingTail(ts);
      CapTokensAlternating(ts[1..], After(ts[0], b));
      CapFromClass(ts[0], b);
      assert Homogeneous(c) && IsWordToken(c) == IsWordToken(ts[0]);
      if rest != [] {
        CapFromClass(ts[1], After(ts[0], b));
        assert rest[0] == CapFrom(ts[1], After(ts[0], b));
      }
      AlternatingCons(c, rest);
    }
  }

  /** The acronym fix-up cuts its result into the tokens it rewrote. */
  lemma FixedTokens(c: string)
    ensures Tokens(FixAcronyms(c, AcronymRules)) == FixTokens(Tokens(c), AcronymRules)
  {
    TokensPartition(c);
    AcronymRulesAreWords();
    FixTokensAlternating(Tokens(c), AcronymRules);
    TokensOfAlternating(FixTokens(Tokens(c), AcronymRules));
  }

  lemma FixCons(ts: seq<string>, b: bool)
    requires ts != []
    ensures FixTokens(CapTokens(ts, b), AcronymRules)
         == [FixedToken(ts[0], b)] + FixTokens(CapTokens(ts[1..], After(ts[0], b)), AcronymRules)
  {
    var c := CapTokens(ts, b);
    assert c[0] == CapFrom(ts[0], b) && c[1..] == CapTokens(ts[1..], After(ts[0], b));
    AcronymRulesDoNotChain();
    ApplyRulesIsLookup(CapFrom(ts[0], b), AcronymRules);
  }

  lemma {:induction false} CapTokensLength(ts: seq<string>, b: bool)
    ensures |CapTokens(ts, b)| == |ts|
  {
    if ts != [] {
      CapTokensLength(ts[1..], After(ts[0], b));
    }
  }

  lemma FixLength(ts: seq<string>, b: bool)
    ensures |FixTokens(CapTokens(ts, b), AcronymRules)| == |ts|
  {
    CapTokensLength(ts, b);
    FixTokensAt(CapTokens(ts, b), AcronymRules);
  }

  /** The first fixed token lowers back to the first lowered token, and a separator is kept. */
  lemma FixHead(ts: seq<string>, b: bool)
    requires ts != [] && NoUpper(ts[0])
    ensures FixTokens(CapTokens(ts, b), AcronymRules) != []
    ensures FixTokens(CapTokens(ts, b), AcronymRules)[0] == FixedToken(ts[0], b)
    ensures Lower(FixTokens(CapTokens(ts, b), AcronymRules)[0]) == ts[0]
    ensures ts[0] == " " || ts[0] == "-" ==> FixTokens(CapTokens(ts, b), AcronymRules)[0] == ts[0]
    ensures FixTokens(CapTokens(ts, b), AcronymRules)[1..]
         == FixTokens(CapTokens(ts[1..], After(ts[0], b)), AcronymRules)
  {
    FixCons(ts, b);
    FixedTokenLower(ts[0], b);
    if ts[0] == " " || ts[0] == "-" {
      FixedTokenSeparator(ts[0], b);
    }
  }

  /** Where no `al muhajirin` starts, the fix-up passes the first token through. */
  lemma CollapseKeeps(us: seq<string>)
    requires us != [] && Lower(us[0]) != "almuhajirin"
    requires !(|us| >= 3 && Lower(us[0]) == "al" && (us[1] == " " || us[1] == "-") && Lower(us[2]) == "muhajirin")
    ensures Collapse(us) == us[0] + Collapse(us[1..])
  {
  }

  lemma CollapseMerges(us: seq<string>)
    requires us != []
    requires Lower(us[0]) == "almuhajirin"
      || (|us| >= 3 && Lower(us[0]) == "al" && (us[1] == " " || us[1] == "-") && Lower(us[2]) == "muhajirin")
    ensures Lower(us[0]) == "almuhajirin" ==> Collapse(us) == "AlMuhajirin" + Collapse(us[1..])
    ensures Lower(us[0]) != "almuhajirin" ==> Collapse(us) == "AlMuhajirin" + Collapse(us[3..])
  {
  }

  lemma CollapseMergedStep(ts: seq<string>, b: bool)
    requires ts != [] && ts[0] == "almuhajirin"
    requires Collapse(FixTokens(CapTokens(ts[1..], false), AcronymRules)) == Pass(ts[1..], false)
    requires forall j :: 0 <= j < |ts| ==> NoUpper(ts[j])
    ensures Collapse(FixTokens(CapTokens(ts, b), AcronymRules)) == Pass(ts, b)
  {
    var us := FixTokens(CapTokens(ts, b), AcronymRules);
    FixHead(ts, b);
    AfterMuhajirin(b);
    CollapseMerges(us);
  }

  lemma CollapseSplitStep(ts: seq<string>, b: bool)
    requires SplitAlAt(ts)
    requires Collapse(FixTokens(CapTokens(ts[3..], false), AcronymRules)) == Pass(ts[3..], false)
    requires forall j :: 0 <= j < |ts| ==> NoUpper(ts[j])
    ensures Collapse(FixTokens(CapTokens(ts, b), AcronymRules)) == Pass(ts, b)
  {
    var us := FixTokens(CapTokens(ts, b), AcronymRules);
    var b1 := After(ts[0], b);
    var b2 := After(ts[1], b1);
    FixHead(ts, b);
    FixHead(ts[1..], b1);
    FixHead(ts[2..], b2);
    assert ts[1..][1..] == ts[2..] && ts[2..][1..] == ts[3..];
    assert us[3..] == us[1..][1..][1..];
    AfterMuhajirin(b2);
    assert Lower(us[0]) == "al" != "almuhajirin";
    CollapseMerges(us);
  }

  /** The first three fixed tokens lower back to the first three lowered tokens, separators kept. */
  lemma FixThree(ts: seq<string>, b: bool, us: seq<string>)
    requires |ts| >= 3 && NoUpper(ts[0]) && NoUpper(ts[1]) && NoUpper(ts[2])
    requires us == FixTokens(CapTokens(ts, b), AcronymRules)
    ensures |us| >= 3 && Lower(us[0]) == ts[0] && Lower(us[1]) == ts[1] && Lower(us[2]) == ts[2]
    ensures ts[1] == " " || ts[1] == "-" ==> us[1] == ts[1]
  {
    var b1 := After(ts[0], b);
    var u1 := FixTokens(CapTokens(ts[1..], b1), AcronymRules);
    var u2 := FixTokens(CapTokens(ts[2..], After(ts[1], b1)), AcronymRules);
    FixHead(ts, b);
    FixHead(ts[1..], b1);
    assert ts[1..][1..] == ts[2..];
    FixHead(ts[2..], After(ts[1], b1));
    assert us[1..] == u1 && u1[1..] == u2;
    assert us[1] == u1[0] && us[2] == u2[0];
  }

  lemma SeparatorLower(t: string)
    ensures t == " " || t == "-" ==> Lower(t) == t
  {
    if t == " " || t == "-" {
      assert Lower(t)[0] == LowerChar(t[0]);
    }
  }

  lemma CollapsePlainStep(ts: seq<string>, b: bool)
    requires ts != [] && ts[0] != "almuhajirin" && !SplitAlAt(ts)
    requires forall j :: 0 <= j < |ts| ==> NoUpper(ts[j])
    requires Collapse(FixTokens(CapTokens(ts[1..], After(ts[0], b)), AcronymRules)) == Pass(ts[1..], After(ts[0], b))
    ensures Collapse(FixTokens(CapTokens(ts, b), AcronymRules)) == Pass(ts, b)
  {
    var us := FixTokens(CapTokens(ts, b), AcronymRules);
    FixHead(ts, b);
    if |ts| >= 3 {
      FixThree(ts, b, us);
      SeparatorLower(us[1]);
    } else {
      FixLength(ts, b);
    }
    CollapseKeeps(us);
  }

  /** Capitalising, the acronym table and the AlMuhajirin fix-up, token by token, are `Pass`. */
  lemma {:induction false} CollapseFixed(ts: seq<string>, b: bool)
    requires forall j :: 0 <= j < |ts| ==> NoUpper(ts[j])
    ensures Collapse(FixTokens(CapTokens(ts, b), AcronymRules)) == Pass(ts, b)
    decreases |ts|
  {
    if ts == [] {
    } else if ts[0] == "almuhajirin" {
      CollapseFixed(ts[1..], false);
      CollapseMergedStep(ts, b);
    } else if SplitAlAt(ts) {
      CollapseFixed(ts[3..], false);
      CollapseSplitStep(ts, b);
    } else {
      CollapseFixed(ts[1..], After(ts[0], b));
      CollapsePlainStep(ts, b);
    }
  }

  /** `Pass` is `TitleCaseSmart` on the tokens of the lowered input. */
  lemma TitleCaseByTokens(x: string)
    requires x != ""
    ensures TitleCaseSmart(x) == Pass(Tokens(Lower(x)), true)
  {
    var l := Lower(x);
    var ts := Tokens(l);
    TokensPartition(l);
    LowerNoUpper(x);
    ConcatNoUpper(ts);
    TitleWordsIsCapFrom(l);
    CapFromConcat(ts, true);
    var cap := Concat(CapTokens(ts, true));
    CapTokensAlternating(ts, true);
    TokensOfAlternating(CapTokens(ts, true));
    FixedTokens(cap);
    CollapseFixed(ts, true);
  }

  // ---------------------------------------------------------------------
  // Evaluating `Pass` and `Tokens` one token at a time

  lemma PassWord(t: string, rest: seq<string>, b: bool)
    requires t != "almuhajirin" && t != "al"
    ensures Pass([t] + rest, b) == FixedToken(t, b) + Pass(rest, After(t, b))
  {
    assert ([t] + rest)[1..] == rest;
  }

  lemma PassAlMuhajirin(sep: string, rest: seq<string>, b: bool)
    requires sep == " " || sep == "-"
    ensures Pass(["al", sep, "muhajirin"] + rest, b) == "AlMuhajirin" + Pass(rest, false)
  {
    assert (["al", sep, "muhajirin"] + rest)[3..] == rest;
  }

  lemma PassMerged(rest: seq<string>, b: bool)
    ensures Pass(["almuhajirin"] + rest, b) == "AlMuhajirin" + Pass(rest, false)
  {
    assert (["almuhajirin"] + rest)[1..] == rest;
  }

  /** A word starting a part is capitalised on its first letter, one inside a part is left as is, before the table. */
  lemma FixedWord(t: string, b: bool)
    requires t != [] && forall i :: 0 <= i < |t| ==> IsWordChar(t[i])
    ensures FixedToken(t, b) == Lookup(if b then CapFirst(t) else t, AcronymRules)
    ensures !After(t, b)
  {
    assert forall i :: 0 <= i < |t| ==> !IsBreak(t[i]);
    if b {
      CapFirstIsCapFrom(t);
    } else {
      CapFromPlain(t);
    }
  }

  /** A word followed by a separator, in front of any tokens. */
  lemma PassWordSep(w: string, sep: string, rest: seq<string>, b: bool)
    requires IsWordString(w) && w != "almuhajirin" && w != "al"
    requires sep != [] && forall i :: 0 <= i < |sep| ==> !IsWordChar(sep[i])
    requires IsBreak(sep[|sep| - 1])
    ensures Pass([w, sep] + rest, b) == FixedToken(w, b) + (sep + Pass(rest, true))
  {
    assert [w, sep] + rest == [w] + ([sep] + rest);
    PassWord(w, [sep] + rest, b);
    FixedWord(w, b);
    PassWord(sep, rest, false);
    FixedTokenNonWord(sep, false);
  }

  /** A word followed by a separator, in front of tokens that start with a word. */
  lemma ConsWordSep(w: string, sep: string, rest: seq<string>)
    requires IsWordString(w) && sep != [] && forall i :: 0 <= i < |sep| ==> !IsWordChar(sep[i])
    requires Alternating(rest) && rest != [] && IsWordToken(rest[0])
    ensures Alternating([w, sep] + rest) && ([w, sep] + rest)[0] == w
    ensures Concat([w, sep] + rest) == w + (sep + Concat(rest))
  {
    assert [w, sep] + rest == [w] + ([sep] + rest);
    WordTokenOf(w);
    ConsToken(sep, rest);
    ConsToken(w, [sep] + rest);
  }

  lemma ConsToken(t: string, rest: seq<string>)
    requires Homogeneous(t) && Alternating(rest)
    requires rest != [] ==> IsWordToken(t) != IsWordToken(rest[0])
    ensures Alternating([t] + rest) && Concat([t] + rest) == t + Concat(rest)
  {
    AlternatingCons(t, rest);
    ConcatCons(t, rest);
  }

  // ---------------------------------------------------------------------
  // The second pass

  /** The merged list starts with the first token, or with `almuhajirin` where that was `al`. */
  lemma MergeHead(ts: seq<string>)
    requires ts != []
    ensures Merge(ts) != []
    ensures Merge(ts)[0] == ts[0] || (ts[0] == "al" && Merge(ts)[0] == "almuhajirin")
  {
  }

  /** The normaliser's result lowers to the merged tokens. */
  lemma {:induction false} LowerPass(ts: seq<string>, b: bool)
    requires forall j :: 0 <= j < |ts| ==> NoUpper(ts[j])
    ensures Lower(Pass(ts, b)) == Concat(Merge(ts))
    decreases |ts|
  {
    if ts != [] {
      if ts[0] == "almuhajirin" {
        LowerPass(ts[1..], false);
        LowerAppend("AlMuhajirin", Pass(ts[1..], false));
        assert Lower("AlMuhajirin") == "almuhajirin";
        ConcatCons(ts[0], Merge(ts[1..]));
      } else if SplitAlAt(ts) {
        LowerPass(ts[3..], false);
        LowerAppend("AlMuhajirin", Pass(ts[3..], false));
        assert Lower("AlMuhajirin") == "almuhajirin";
        ConcatCons("almuhajirin", Merge(ts[3..]));
      } else {
        LowerPass(ts[1..], After(ts[0], b));
        LowerAppend(FixedToken(ts[0], b), Pass(ts[1..], After(ts[0], b)));
        FixedTokenLower(ts[0], b);
        ConcatCons(ts[0], Merge(ts[1..]));
      }
    }
  }

  lemma MergedWord()
    ensures Homogeneous("almuhajirin") && IsWordToken("almuhajirin") && IsWordToken("al")
  {
    WordTokenOf("almuhajirin");
  }

  /** Merging keeps the tokens maximal runs: they still alternate between words and non-words. */
  lemma {:induction false} MergeAlternating(ts: seq<string>)
    requires Alternating(ts)
    ensures Alternating(Merge(ts))
    decreases |ts|
  {
    if ts != [] {
      AlternatingTail(ts);
      MergedWord();
      if SplitAlAt(ts) {
        AlternatingTail(ts[1..]);
        AlternatingTail(ts[2..]);
        assert ts[1..][1..] == ts[2..] && ts[2..][1..] == ts[3..];
        MergeAlternating(ts[3..]);
        if ts[3..] != [] {
          MergeHead(ts[3..]);
          assert ts[2..][1] == ts[3..][0];
        }
        AlternatingCons("almuhajirin", Merge(ts[3..]));
      } else {
        MergeAlternating(ts[1..]);
        if ts[1..] != [] {
          MergeHead(ts[1..]);
        }
        AlternatingCons(ts[0], Merge(ts[1..]));
      }
    }
  }

  /** `Pass` gives the same text on the merged tokens. */
  lemma {:induction false} PassMerge(ts: seq<string>, b: bool)
    ensures Pass(Merge(ts), b) == Pass(ts, b)
    decreases |ts|
  {
    if ts != [] {
      if SplitAlAt(ts) {
        PassMerge(ts[3..], false);
        PassMergeSplit(ts, b);
      } else {
        PassMerge(ts[1..], After(ts[0], b));
        PassMergeKept(ts, b);
      }
    }
  }

  /** A separated `al muhajirin` and its merged token give the same text. */
  lemma PassMergeSplit(ts: seq<string>, b: bool)
    requires SplitAlAt(ts) && Pass(Merge(ts[3..]), false) == Pass(ts[3..], false)
    ensures Pass(Merge(ts), b) == Pass(ts, b)
  {
    PassMerged(Merge(ts[3..]), b);
  }

  /** A token that merging keeps gives the same text, and the merged tail cannot start a separated `al muhajirin`. */
  lemma PassMergeKept(ts: seq<string>, b: bool)
    requires ts != [] && !SplitAlAt(ts)
    requires Pass(Merge(ts[1..]), After(ts[0], b)) == Pass(ts[1..], After(ts[0], b))
    ensures Pass(Merge(ts), b) == Pass(ts, b)
  {
    var m := Merge(ts);
    assert m == [ts[0]] + Merge(ts[1..]);
    assert m[1..] == Merge(ts[1..]);
    AfterMuhajirin(b);
    if |m| >= 3 && m[0] == "al" && (m[1] == " " || m[1] == "-") {
      MergeHead(ts[1..]);
      assert m[1] == ts[1];
      assert Merge(ts[1..]) == [ts[1]] + Merge(ts[2..]) by {
        assert ts[1..][1..] == ts[2..];
      }
      MergeHead(ts[2..]);
      assert m[2] == Merge(ts[2..])[0];
    }
  }

  lemma SpaceCaseless(c: char)
    ensures IsSpace(LowerChar(c)) == IsSpace(c)
  {
  }

  /** Two texts with the same head and tails of the same emptiness and last character end alike. */
  lemma SameEnds(a: string, c: string, b: string, d: string)
    requires a != [] && b != [] && a[0] == b[0] && a[|a| - 1] == b[|b| - 1]
    requires (c == []) == (d == []) && (c != [] ==> c[|c| - 1] == d[|d| - 1])
    ensures (a + c)[0] == (b + d)[0] && (a + c)[|a + c| - 1] == (b + d)[|b + d| - 1]
  {
  }

  /** Merging keeps the first and the last character of the lowered text. */
  lemma {:induction false} MergeEnds(ts: seq<string>)
    requires ts != [] && forall k :: 0 <= k < |ts| ==> ts[k] != []
    ensures Concat(ts) != [] && Concat(Merge(ts)) != []
    ensures Concat(Merge(ts))[0] == Concat(ts)[0]
    ensures Concat(Merge(ts))[|Concat(Merge(ts))| - 1] == Concat(ts)[|Concat(ts)| - 1]
    decreases |ts|
  {
    var n, merged, head := MergeFirst(ts);
    var rest := ts[n..];
    ConcatCons(merged, Merge(rest));
    if rest != [] {
      MergeEnds(rest);
    }
    SameEnds(merged, Concat(Merge(rest)), head, Concat(rest));
  }

  /** The first merged token and the tokens it came from, which start and end with the same characters. */
  lemma MergeFirst(ts: seq<string>) returns (n: nat, merged: string, head: string)
    requires ts != [] && ts[0] != []
    ensures 1 <= n <= |ts| && Merge(ts) == [merged] + Merge(ts[n..]) && Concat(ts) == head + Concat(ts[n..])
    ensures merged != [] && head != [] && merged[0] == head[0] && merged[|merged| - 1] == head[|head| - 1]
  {
    if SplitAlAt(ts) {
      n, merged, head := 3, "almuhajirin", "al" + ts[1] + "muhajirin";
      ConcatSplitThree(ts);
    } else {
      n, merged, head := 1, ts[0], ts[0];
      ConcatHead(ts);
    }
  }

  lemma ConcatSplitThree(ts: seq<string>)
    requires |ts| >= 3
    ensures Concat(ts) == ts[0] + ts[1] + ts[2] + Concat(ts[3..])
  {
    var c1, c2, c3 := Concat(ts[1..]), Concat(ts[2..]), Concat(ts[3..]);
    assert ts[1..][1..] == ts[2..] && ts[2..][1..] == ts[3..];
    assert Concat(ts) == ts[0] + c1;
    assert c1 == ts[1] + c2;
    assert c2 == ts[2] + c3;
    Regroup(ts[0], ts[1], ts[2], c3);
    AppendAssoc(ts[0], ts[1], ts[2] + c3);
  }

  /** Normalising neither adds nor removes whitespace at either end. */
  lemma TitleCaseEnds(x: string)
    ensures TitleCaseSmart(x) == [] <==> x == []
    ensures x != [] ==> IsSpace(TitleCaseSmart(x)[0]) == IsSpace(x[0])
    ensures x != [] ==> IsSpace(TitleCaseSmart(x)[|TitleCaseSmart(x)| - 1]) == IsSpace(x[|x| - 1])
  {
    if x != [] {
      var y := TitleCaseSmart(x);
      LoweredEnds(x, y);
      EndsFromLower(x, y);
    }
  }

  /** Texts whose lowered forms start and end alike start and end alike in whether those characters are whitespace. */
  lemma EndsFromLower(x: string, y: string)
    requires x != [] && Lower(y) != [] && Lower(y)[0] == Lower(x)[0]
    requires Lower(y)[|Lower(y)| - 1] == Lower(x)[|Lower(x)| - 1]
    ensures y != [] && IsSpace(y[0]) == IsSpace(x[0]) && IsSpace(y[|y| - 1]) == IsSpace(x[|x| - 1])
  {
    LowerEnds(x);
    LowerEnds(y);
  }

  /** Lower-casing keeps the length and whether each end is whitespace. */
  lemma LowerEnds(y: string)
    ensures |Lower(y)| == |y|
    ensures y != [] ==> IsSpace(Lower(y)[0]) == IsSpace(y[0]) && IsSpace(Lower(y)[|y| - 1]) == IsSpace(y[|y| - 1])
  {
    if y != [] {
      SpaceCaseless(y[0]);
      SpaceCaseless(y[|y| - 1]);
    }
  }

  /** The lowered result starts and ends with the characters the lowered input starts and ends with. */
  lemma LoweredEnds(x: string, y: string)
    requires x != [] && y == TitleCaseSmart(x)
    ensures Lower(y) != [] && Lower(y)[0] == Lower(x)[0]
    ensures Lower(y)[|Lower(y)| - 1] == Lower(x)[|Lower(x)| - 1]
  {
    var l := Lower(x);
    var ts := Tokens(l);
    TitleCaseByTokens(x);
    TokensPartition(l);
    assert ts != [];
    assert forall k :: 0 <= k < |ts| ==> ts[k] != [] by {
      forall k | 0 <= k < |ts| ensures ts[k] != [] { assert Homogeneous(ts[k]); }
    }
    LowerNoUpper(x);
    ConcatNoUpper(ts);
    LowerPass(ts, true);
    MergeEnds(ts);
  }

  /** A trimmed name stays trimmed. */
  lemma TitleCaseTrimmed(x: string)
    requires Trim(x) == x
    ensures Trim(TitleCaseSmart(x)) == TitleCaseSmart(x)
  {
    TrimmedEnds(x);
    TitleCaseEnds(x);
    TrimmedEnds(TitleCaseSmart(x));
  }

  /** Normalising a name twice gives what normalising it once gives. */
  lemma TitleCaseIdempotent(x: string)
    ensures TitleCaseSmart(TitleCaseSmart(x)) == TitleCaseSmart(x)
  {
    if x != "" {
      var l := Lower(x);
      var ts := Tokens(l);
      TitleCaseByTokens(x);
      TokensPartition(l);
      LowerNoUpper(x);
      ConcatNoUpper(ts);
      var y := Pass(ts, true);
      LowerPass(ts, true);
      MergeAlternating(ts);
      TokensOfAlternating(Merge(ts));
      MergeHead(ts);
      AlternatingTail(Merge(ts));
      ConcatHead(Merge(ts));
      assert y != "";
      TitleCaseByTokens(y);
      PassMerge(ts, true);
    }
  }
}
