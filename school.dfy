/**
 * `normalizeSchoolName` (src/App.jsx:59-69): the title-cased school name is
 * matched against
 *
 *   ^(SD|SDS)(?:\s+Plus)?\s+(\d+)\s+(?:Al\s*[- ]*)?Muhajirin\b.*$   (case-insensitive)
 *
 * and a match is replaced by the canonical `SDS Plus <digits> AlMuhajirin`.
 *
 * The regular expression is modelled as a deterministic parser
 * (`SchoolParts`) into a `SchoolMatch`, the value that records how the text
 * splits into the pieces of the pattern.  `MatchText` prints a match back;
 * `MatchOk` states which pieces the pattern allows.  The two round-trip
 * lemmas show that the parser accepts exactly the texts the pattern
 * describes and that the split, and so the captured number, is unique,
 * which is why the backtracking of the regular-expression engine need not
 * be modelled.
 */
module School {
  import opened Text
  import opened Opt
  import opened TitleCase
  import opened Normalize
  import opened TokenView

  /** The optional `Al\s*[- ]*` part: `Al` in any case and the separator run after it. */
  datatype Ending = Ending(al: Option<(string, string)>, muhajirin: string, tail: string)

  /** `(\d+)\s+` followed by the ending. */
  datatype Number = Number(digits: string, gap: string, ending: Ending)

  /** `(SD|SDS)`, the whitespace after it, the optional `Plus` with the whitespace after it, and the rest. */
  datatype SchoolMatch = SchoolMatch(prefix: string, lead: string, plus: Option<(string, string)>, number: Number)

  // ---------------------------------------------------------------------
  // What the pattern allows, and how a match reads as text

  /** `\s*[- ]*`: some whitespace, then only hyphens and spaces. */
  predicate AlSep(u: string) {
    forall i :: Span(u, Space, true) <= i < |u| ==> u[i] == '-' || u[i] == ' '
  }

  predicate SpaceRun(w: string) {
    w != [] && AllSpace(w)
  }

  predicate EndingOk(e: Ending) {
    && (e.al.Some? ==> Lower(e.al.value.0) == "al" && AlSep(e.al.value.1))
    && Lower(e.muhajirin) == "muhajirin"
    && (e.tail != [] ==> !IsWordChar(e.tail[0]))
    && NoLineTerminator(e.tail)
  }

  predicate NumberOk(n: Number) {
    n.digits != [] && AllDigits(n.digits) && SpaceRun(n.gap) && EndingOk(n.ending)
  }

  predicate MatchOk(m: SchoolMatch) {
    && (Lower(m.prefix) == "sd" || Lower(m.prefix) == "sds")
    && SpaceRun(m.lead)
    && (m.plus.Some? ==> Lower(m.plus.value.0) == "plus" && SpaceRun(m.plus.value.1))
    && NumberOk(m.number)
  }

  function EndingText(e: Ending): string {
    (if e.al.Some? then e.al.value.0 + e.al.value.1 else "") + e.muhajirin + e.tail
  }

  function NumberText(n: Number): string {
    n.digits + n.gap + EndingText(n.ending)
  }

  function MatchText(m: SchoolMatch): string {
    m.prefix + m.lead + PlusText(m.plus) + NumberText(m.number)
  }

  // ---------------------------------------------------------------------
  // The parser

  /** `Muhajirin\b.*$` at the start of `s`. */
  predicate MuhajirinAt(s: string) {
    CiAt(s, 0, "muhajirin") && (|s| > 9 ==> !IsWordChar(s[9])) && NoLineTerminator(s[9..])
  }

  function ParseEnding(s: string): Option<Ending> {
    if CiAt(s, 0, "al") then
      var u := Span(s[2..], SpaceOrHyphen, true);
      var rest := s[2 + u..];
      if AlSep(s[2..2 + u]) && MuhajirinAt(rest) then Some(Ending(Some((s[..2], s[2..2 + u])), rest[..9], rest[9..]))
      else None
    else if MuhajirinAt(s) then Some(Ending(None, s[..9], s[9..]))
    else None
  }

  function ParseNumber(s: string): Option<Number> {
    var d := Span(s, Digit, true);
    var g := Span(s[d..], Space, true);
    if d == 0 || g == 0 then None
    else
      match ParseEnding(s[d + g..])
      case None => None
      case Some(e) => Some(Number(s[..d], s[d..d + g], e))
  }

  /** `(?:\s+Plus)?\s+(\d+)…` after the first whitespace run: the optional `Plus` with the whitespace after it, then the number. */
  function ParsePlus(t: string): Option<(Option<(string, string)>, Number)> {
    var k := if CiAt(t, 0, "plus") then Span(t[4..], Space, true) else 0;
    if k > 0 then
      match ParseNumber(t[4 + k..])
      case None => None
      case Some(n) => Some((Some((t[..4], t[4..4 + k])), n))
    else
      match ParseNumber(t)
      case None => None
      case Some(n) => Some((None, n))
  }

  /** `^(SD|SDS)`: `SD` is tried first, and gives way to `SDS` when the third character is an `s`. */
  function PrefixLength(s: string): nat {
    if CiAt(s, 0, "sds") then 3 else if CiAt(s, 0, "sd") then 2 else 0
  }

  /** The whole pattern, anchored at both ends of `s`. */
  function SchoolParts(s: string): Option<SchoolMatch> {
    var p := PrefixLength(s);
    if p == 0 then None
    else
      var lead := Span(s[p..], Space, true);
      if lead == 0 then None
      else
        match ParsePlus(s[p + lead..])
        case None => None
        case Some((plus, n)) => Some(SchoolMatch(s[..p], s[p..p + lead], plus, n))
  }

  /** `m[2]` of the match, if the text matches. */
  function SchoolNumber(s: string): Option<string> {
    match SchoolParts(s)
    case None => None
    case Some(m) => Some(m.number.digits)
  }

  /** `normalizeSchoolName` (src/App.jsx:59-69). */
  function NormalizeSchoolName(name: string): string {
    var out := TitleCaseSmart(name);
    match SchoolNumber(out)
    case Some(num) => "SDS Plus " + num + " AlMuhajirin"
    case None => out
  }

  // ---------------------------------------------------------------------
  // The parser reads back every match the pattern describes

  lemma CiAtFront(a: string, b: string, lit: string)
    requires Lower(a) == lit
    ensures CiAt(a + b, 0, lit)
  {
    assert (a + b)[0..|lit|] == a;
  }

  lemma AlSepChars(u: string)
    requires AlSep(u)
    ensures forall i :: 0 <= i < |u| ==> InClass(u[i], SpaceOrHyphen)
  {
    SpanFacts(u, Space, true);
    forall i | 0 <= i < |u| ensures InClass(u[i], SpaceOrHyphen) {
      if i < Span(u, Space, true) {
        assert InClass(u[i], Space);
      }
    }
  }

  /** Every match of the ending starts with `a` or `m`, in either case. */
  lemma EndingStart(e: Ending)
    requires EndingOk(e)
    ensures EndingText(e) != [] && LowerChar(EndingText(e)[0]) in {'a', 'm'}
  {
    if e.al.Some? {
      assert EndingText(e)[0] == e.al.value.0[0];
      assert Lower(e.al.value.0)[0] == 'a';
    } else {
      assert EndingText(e)[0] == e.muhajirin[0];
      assert Lower(e.muhajirin)[0] == 'm';
    }
  }

  lemma MuhajirinAtText(m: string, t: string)
    requires Lower(m) == "muhajirin"
    requires t != [] ==> !IsWordChar(t[0])
    requires NoLineTerminator(t)
    ensures MuhajirinAt(m + t) && (m + t)[..9] == m && (m + t)[9..] == t
  {
    CiAtFront(m, t, "muhajirin");
  }

  /** `Al`, its separator run, then `Muhajirin` and the tail. */
  lemma ParseEndingTextAl(a: string, u: string, mt: string)
    requires Lower(a) == "al" && AlSep(u) && MuhajirinAt(mt)
    ensures ParseEnding(a + u + mt) == Some(Ending(Some((a, u)), mt[..9], mt[9..]))
  {
    var s := a + u + mt;
    assert s == a + (u + mt);
    CiAtFront(a, u + mt, "al");
    assert s[2..] == u + mt;
    AlSepChars(u);
    assert Lower(mt[0..9])[0] == 'm';
    SpanConcat(u, mt, SpaceOrHyphen, true);
    assert s[2..2 + |u|] == u;
    assert s[2 + |u|..] == mt;
    assert s[..2] == a;
  }

  /** `Muhajirin` and the tail, with no `Al` in front. */
  lemma ParseEndingTextBare(mt: string)
    requires MuhajirinAt(mt)
    ensures ParseEnding(mt) == Some(Ending(None, mt[..9], mt[9..]))
  {
    assert Lower(mt[0..9])[0] == 'm';
    assert !CiAt(mt, 0, "al") by {
      assert Lower(mt[0..2])[0] == LowerChar(mt[0]);
    }
  }

  lemma ParseEndingText(e: Ending)
    requires EndingOk(e)
    ensures ParseEnding(EndingText(e)) == Some(e)
  {
    var mt := e.muhajirin + e.tail;
    MuhajirinAtText(e.muhajirin, e.tail);
    if e.al.Some? {
      var a, u := e.al.value.0, e.al.value.1;
      ParseEndingTextAl(a, u, mt);
      AppendAssoc(a + u, e.muhajirin, e.tail);
      assert EndingText(e) == a + u + mt;
      assert Ending(Some((a, u)), mt[..9], mt[9..]) == e;
    } else {
      ParseEndingTextBare(mt);
      assert EndingText(e) == mt;
      assert Ending(None, mt[..9], mt[9..]) == e;
    }
  }

  /** The digits and the whitespace after them are read back as they were. */
  lemma NumberSplit(digits: string, gap: string, et: string)
    requires digits != [] && AllDigits(digits) && SpaceRun(gap)
    requires et != [] && !IsSpace(et[0])
    ensures var s := digits + gap + et;
      && Span(s, Digit, true) == |digits|
      && Span(s[|digits|..], Space, true) == |gap|
      && s[..|digits|] == digits && s[|digits|..|digits| + |gap|] == gap && s[|digits| + |gap|..] == et
  {
    var s := digits + gap + et;
    assert s == digits + (gap + et);
    SpanConcat(digits, gap + et, Digit, true);
    assert s[|digits|..] == gap + et;
    SpanConcat(gap, et, Space, true);
  }

  lemma ParseNumberText(n: Number)
    requires NumberOk(n)
    ensures ParseNumber(NumberText(n)) == Some(n)
  {
    EndingStart(n.ending);
    ParseEndingText(n.ending);
    NumberSplit(n.digits, n.gap, EndingText(n.ending));
  }

  /** The number part starts with a digit. */
  lemma NumberStart(n: Number)
    requires NumberOk(n)
    ensures NumberText(n) != [] && IsDigit(NumberText(n)[0])
  {
    assert NumberText(n)[0] == n.digits[0];
  }

  /** `Plus` and the whitespace after it, then the number. */
  lemma ParsePlusText(p: string, w: string, n: Number)
    requires Lower(p) == "plus" && SpaceRun(w) && NumberOk(n)
    ensures var t := p + w + NumberText(n);
      && CiAt(t, 0, "plus")
      && Span(t[4..], Space, true) == |w|
      && t[..4] == p && t[4..4 + |w|] == w && t[4 + |w|..] == NumberText(n)
  {
    var t := p + w + NumberText(n);
    assert t == p + (w + NumberText(n));
    CiAtFront(p, w + NumberText(n), "plus");
    assert t[4..] == w + NumberText(n);
    NumberStart(n);
    SpanConcat(w, NumberText(n), Space, true);
  }

  /** Without `Plus`, the text after the leading whitespace starts with a digit, so `plus` is not seen. */
  lemma NoPlusText(n: Number)
    requires NumberOk(n)
    ensures !CiAt(NumberText(n), 0, "plus")
  {
    NumberStart(n);
    var t := NumberText(n);
    if |t| >= 4 { assert Lower(t[0..4])[0] == LowerChar(t[0]); }
  }

  /** The prefix `SD` or `SDS` and the whitespace after it are read back as they were. */
  lemma ParsePrefixText(pre: string, lead: string, rest: string)
    requires Lower(pre) == "sd" || Lower(pre) == "sds"
    requires SpaceRun(lead) && rest != [] && !IsSpace(rest[0])
    ensures var s := pre + lead + rest;
      && PrefixLength(s) == |pre|
      && Span(s[|pre|..], Space, true) == |lead|
      && s[..|pre|] == pre && s[|pre|..|pre| + |lead|] == lead && s[|pre| + |lead|..] == rest
  {
    var s := pre + lead + rest;
    assert s == pre + (lead + rest);
    CiAtFront(pre, lead + rest, Lower(pre));
    if |pre| == 2 {
      assert s[2] == lead[0];
      assert !CiAt(s, 0, "sds") by {
        if |s| >= 3 { assert Lower(s[0..3])[2] == LowerChar(lead[0]); }
      }
    }
    assert s[|pre|..] == lead + rest;
    SpanConcat(lead, rest, Space, true);
  }

  function PlusText(plus: Option<(string, string)>): string {
    if plus.Some? then plus.value.0 + plus.value.1 else ""
  }

  lemma ParsePlusOfText(plus: Option<(string, string)>, n: Number)
    requires plus.Some? ==> Lower(plus.value.0) == "plus" && SpaceRun(plus.value.1)
    requires NumberOk(n)
    ensures ParsePlus(PlusText(plus) + NumberText(n)) == Some((plus, n))
  {
    ParseNumberText(n);
    if plus.Some? {
      ParsePlusText(plus.value.0, plus.value.1, n);
    } else {
      assert PlusText(plus) + NumberText(n) == NumberText(n);
      NoPlusText(n);
    }
  }

  /** `SchoolParts` put together from its pieces. */
  lemma SchoolPartsOfPieces(s: string, m: SchoolMatch, p: nat, lead: nat)
    requires 0 < p && 0 < lead && p + lead <= |s|
    requires PrefixLength(s) == p && Span(s[p..], Space, true) == lead
    requires s[..p] == m.prefix && s[p..p + lead] == m.lead
    requires ParsePlus(s[p + lead..]) == Some((m.plus, m.number))
    ensures SchoolParts(s) == Some(m)
  {
  }

  /** Completeness: every text the pattern describes is parsed, into the pieces it was made of. */
  lemma SchoolPartsOfText(m: SchoolMatch)
    requires MatchOk(m)
    ensures SchoolParts(MatchText(m)) == Some(m)
  {
    var rest := PlusText(m.plus) + NumberText(m.number);
    assert MatchText(m) == m.prefix + m.lead + rest;
    NumberStart(m.number);
    if m.plus.Some? {
      assert Lower(m.plus.value.0)[0] == 'p';
      assert rest[0] == m.plus.value.0[0];
    } else {
      assert rest == NumberText(m.number);
    }
    ParsePrefixText(m.prefix, m.lead, rest);
    ParsePlusOfText(m.plus, m.number);
    SchoolPartsOfPieces(MatchText(m), m, |m.prefix|, |m.lead|);
  }

  // ---------------------------------------------------------------------
  // Everything the parser accepts is a match of the pattern

  lemma MuhajirinAtSound(s: string)
    requires MuhajirinAt(s)
    ensures Lower(s[..9]) == "muhajirin" && (s[9..] != [] ==> !IsWordChar(s[9..][0])) && NoLineTerminator(s[9..])
    ensures s == s[..9] + s[9..]
  {
    assert s[0..9] == s[..9];
  }

  lemma ParseEndingSoundAl(s: string, e: Ending)
    requires CiAt(s, 0, "al") && ParseEnding(s) == Some(e)
    ensures EndingOk(e) && EndingText(e) == s
  {
    var u := Span(s[2..], SpaceOrHyphen, true);
    var rest := s[2 + u..];
    assert e == Ending(Some((s[..2], s[2..2 + u])), rest[..9], rest[9..]);
    assert AlSep(s[2..2 + u]) && MuhajirinAt(rest);
    MuhajirinAtSound(rest);
    assert Lower(s[..2]) == "al" by {
      assert s[0..2] == s[..2];
    }
    SplitAt(s, 2, 2 + u);
  }

  lemma ParseEndingSound(s: string, e: Ending)
    requires ParseEnding(s) == Some(e)
    ensures EndingOk(e) && EndingText(e) == s
  {
    if CiAt(s, 0, "al") {
      ParseEndingSoundAl(s, e);
    } else {
      MuhajirinAtSound(s);
    }
  }

  /** The digit run and the whitespace run that `ParseNumber` cut off, and the ending it parsed after them. */
  lemma ParseNumberShape(s: string, n: Number) returns (d: nat, g: nat)
    requires ParseNumber(s) == Some(n)
    ensures 0 < d && 0 < g && d + g <= |s|
    ensures d == Span(s, Digit, true) && g == Span(s[d..], Space, true)
    ensures n.digits == s[..d] && n.gap == s[d..d + g] && ParseEnding(s[d + g..]) == Some(n.ending)
  {
    d := Span(s, Digit, true);
    g := Span(s[d..], Space, true);
  }

  lemma ParseNumberSound(s: string, n: Number)
    requires ParseNumber(s) == Some(n)
    ensures NumberOk(n) && NumberText(n) == s
  {
    var d, g := ParseNumberShape(s, n);
    ParseEndingSound(s[d + g..], n.ending);
    DigitsThenSpace(s, d, g);
    SplitAt(s, d, d + g);
  }

  /** The digit run and the whitespace run after it are what their names say. */
  lemma DigitsThenSpace(s: string, d: nat, g: nat)
    requires 0 < g && d + g <= |s|
    requires d == Span(s, Digit, true) && g == Span(s[d..], Space, true)
    ensures AllDigits(s[..d]) && SpaceRun(s[d..d + g])
  {
    SpanAllDigits(s);
    SpanAllSpace(s[d..]);
    assert s[d..][..g] == s[d..d + g];
  }

  lemma ParsePlusSound(t: string, plus: Option<(string, string)>, n: Number)
    requires ParsePlus(t) == Some((plus, n))
    ensures plus.Some? ==> Lower(plus.value.0) == "plus" && SpaceRun(plus.value.1)
    ensures NumberOk(n) && PlusText(plus) + NumberText(n) == t
  {
    if plus.Some? {
      ParsePlusSoundSome(t, plus.value.0, plus.value.1, n);
    } else {
      ParseNumberSound(t, n);
    }
  }

  /** With `Plus` taken, the whitespace run after it and the number parsed after that. */
  lemma ParsePlusShape(t: string, p: string, w: string, n: Number) returns (k: nat)
    requires ParsePlus(t) == Some((Some((p, w)), n))
    ensures CiAt(t, 0, "plus") && 0 < k && 4 + k <= |t| && k == Span(t[4..], Space, true)
    ensures p == t[..4] && w == t[4..4 + k] && ParseNumber(t[4 + k..]) == Some(n)
  {
    k := Span(t[4..], Space, true);
  }

  lemma ParsePlusSoundSome(t: string, p: string, w: string, n: Number)
    requires ParsePlus(t) == Some((Some((p, w)), n))
    ensures Lower(p) == "plus" && SpaceRun(w)
    ensures NumberOk(n) && p + w + NumberText(n) == t
  {
    var k := ParsePlusShape(t, p, w, n);
    assert NumberOk(n) && NumberText(n) == t[4 + k..] by {
      ParseNumberSound(t[4 + k..], n);
    }
    assert Lower(p) == "plus" by {
      assert t[0..4] == t[..4];
    }
    assert SpaceRun(w) by {
      SpanAllSpace(t[4..]);
      assert t[4..][..k] == t[4..4 + k];
    }
    SplitAt(t, 4, 4 + k);
  }

  lemma PrefixLengthSound(s: string)
    requires PrefixLength(s) != 0
    ensures PrefixLength(s) <= |s|
    ensures Lower(s[..PrefixLength(s)]) == "sd" || Lower(s[..PrefixLength(s)]) == "sds"
  {
    assert s[0..PrefixLength(s)] == s[..PrefixLength(s)];
  }

  lemma MatchOfPieces(m: SchoolMatch)
    requires Lower(m.prefix) == "sd" || Lower(m.prefix) == "sds"
    requires SpaceRun(m.lead)
    requires m.plus.Some? ==> Lower(m.plus.value.0) == "plus" && SpaceRun(m.plus.value.1)
    requires NumberOk(m.number)
    ensures MatchOk(m)
  {
  }

  /** The prefix and the whitespace run that `SchoolParts` cut off, and what `ParsePlus` read after them. */
  lemma SchoolPartsShape(s: string, m: SchoolMatch) returns (p: nat, lead: nat)
    requires SchoolParts(s) == Some(m)
    ensures 0 < p && 0 < lead && p + lead <= |s|
    ensures p == PrefixLength(s) && lead == Span(s[p..], Space, true)
    ensures m.prefix == s[..p] && m.lead == s[p..p + lead]
    ensures ParsePlus(s[p + lead..]) == Some((m.plus, m.number))
  {
    p := PrefixLength(s);
    lead := Span(s[p..], Space, true);
  }

  /** Soundness: whatever the parser accepts is a match of the pattern, and prints back to the input. */
  lemma SchoolPartsSound(s: string, m: SchoolMatch)
    requires SchoolParts(s) == Some(m)
    ensures MatchOk(m) && MatchText(m) == s
  {
    var p, lead := SchoolPartsShape(s, m);
    var t := s[p + lead..];
    ParsePlusSound(t, m.plus, m.number);
    SchoolPartsOk(s, m, p, lead);
    SchoolPartsPrints(s, m, p, lead);
  }

  /** The pieces `SchoolParts` cut off each meet the pattern. */
  lemma SchoolPartsOk(s: string, m: SchoolMatch, p: nat, lead: nat)
    requires 0 < p && 0 < lead && p + lead <= |s|
    requires p == PrefixLength(s) && lead == Span(s[p..], Space, true)
    requires m.prefix == s[..p] && m.lead == s[p..p + lead]
    requires m.plus.Some? ==> Lower(m.plus.value.0) == "plus" && SpaceRun(m.plus.value.1)
    requires NumberOk(m.number)
    ensures MatchOk(m)
  {
    PrefixLengthSound(s);
    SpanAllSpace(s[p..]);
    assert s[p..][..lead] == s[p..p + lead];
    MatchOfPieces(m);
  }

  /** The pieces `SchoolParts` cut off print back to the input. */
  lemma SchoolPartsPrints(s: string, m: SchoolMatch, p: nat, lead: nat)
    requires p + lead <= |s|
    requires m.prefix == s[..p] && m.lead == s[p..p + lead]
    requires PlusText(m.plus) + NumberText(m.number) == s[p + lead..]
    ensures MatchText(m) == s
  {
    Regroup(s[..p], s[p..p + lead], PlusText(m.plus), NumberText(m.number));
    SplitAt(s, p, p + lead);
  }

  // ---------------------------------------------------------------------
  // What normalisation does

  /**
   * A name whose title-cased form matches the pattern becomes the canonical
   * `SDS Plus <digits> AlMuhajirin`, whatever followed `Muhajirin`.
   */
  lemma NormalizeMatched(name: string, m: SchoolMatch)
    requires MatchOk(m) && MatchText(m) == TitleCaseSmart(name)
    ensures NormalizeSchoolName(name) == "SDS Plus " + m.number.digits + " AlMuhajirin"
    ensures m.number.digits != [] && AllDigits(m.number.digits)
  {
    SchoolPartsOfText(m);
  }

  /** A name whose title-cased form does not match is only title-cased. */
  lemma NormalizeUnmatched(name: string)
    requires forall m :: MatchOk(m) ==> MatchText(m) != TitleCaseSmart(name)
    ensures NormalizeSchoolName(name) == TitleCaseSmart(name)
  {
    var t := TitleCaseSmart(name);
    match SchoolParts(t)
    case Some(m) => SchoolPartsSound(t, m);
    case None =>
  }

  /** The match of `SD Plus <digits> AlMuhajirin<tail>`. */
  function SdPlus(digits: string, tail: string): SchoolMatch {
    SchoolMatch("SD", " ", Some(("Plus", " ")), Number(digits, " ", Ending(Some(("Al", "")), "Muhajirin", tail)))
  }

  lemma SdPlusWords()
    ensures Lower("SD") == "sd" && Lower("Plus") == "plus" && Lower("Al") == "al" && Lower("Muhajirin") == "muhajirin"
    ensures SpaceRun(" ") && AlSep("")
  {
  }

  lemma SdPlusOk(digits: string, tail: string)
    requires digits != [] && AllDigits(digits)
    requires tail != [] ==> !IsWordChar(tail[0])
    requires NoLineTerminator(tail)
    ensures MatchOk(SdPlus(digits, tail))
    ensures MatchText(SdPlus(digits, tail)) == "SD Plus " + digits + " AlMuhajirin" + tail
  {
    SdPlusWords();
    var m := SdPlus(digits, tail);
    assert EndingOk(m.number.ending);
    assert NumberOk(m.number);
    SdPlusText(digits, tail);
  }

  lemma SdPlusText(digits: string, tail: string)
    ensures MatchText(SdPlus(digits, tail)) == "SD Plus " + digits + " AlMuhajirin" + tail
  {
    var m := SdPlus(digits, tail);
    assert PlusText(m.plus) == "Plus ";
    assert EndingText(m.number.ending) == "AlMuhajirin" + tail;
    assert MatchText(m) == "SD" + " " + "Plus " + (digits + " " + ("AlMuhajirin" + tail));
    assert "SD" + " " + "Plus " == "SD Plus ";
    assert " " + "AlMuhajirin" == " AlMuhajirin";
  }

  /**
   * `SD Plus <digits> AlMuhajirin` followed by any text that starts with a
   * non-word character and stays on one line becomes `SDS Plus <digits>
   * AlMuhajirin`: the trailing text is dropped.
   */
  lemma SdPlusDropsTail(name: string, digits: string, tail: string)
    requires digits != [] && AllDigits(digits)
    requires tail != [] ==> !IsWordChar(tail[0])
    requires NoLineTerminator(tail)
    requires TitleCaseSmart(name) == "SD Plus " + digits + " AlMuhajirin" + tail
    ensures NormalizeSchoolName(name) == "SDS Plus " + digits + " AlMuhajirin"
  {
    SdPlusOk(digits, tail);
    NormalizeMatched(name, SdPlus(digits, tail));
  }

  /** Any casing of `SD Plus 5 Al Muhajirin, Purwakarta` is title-cased to `SD Plus 5 AlMuhajirin, Purwakarta` and normalised to `SDS Plus 5 AlMuhajirin`. */
  lemma PurwakartaExample(name: string)
    requires Lower(name) == "sd plus 5 al muhajirin, purwakarta"
    ensures TitleCaseSmart(name) == "SD Plus 5 AlMuhajirin, Purwakarta"
    ensures NormalizeSchoolName(name) == "SDS Plus 5 AlMuhajirin"
  {
    PurwakartaWords();
    PurwakartaCapital();
    PurwakartaLowered();
    PurwakartaTitleText();
    PurwakartaCanonical();
    SdPlusAlPlace(name, "5", "purwakarta");
  }

  lemma PurwakartaWords()
    ensures AllDigits("5") && IsWordString("purwakarta")
  {
  }

  lemma PurwakartaCapital()
    ensures CapFirst("purwakarta") == "Purwakarta" && !MaybeAcronym("Purwakarta")
  {
  }

  lemma PurwakartaLowered()
    ensures "sd plus 5 al muhajirin, purwakarta" == "sd plus " + "5" + " al muhajirin, " + "purwakarta"
  {
    assert "sd plus " + "5" == "sd plus 5";
    assert " al muhajirin, " + "purwakarta" == " al muhajirin, purwakarta";
    AppendAssoc("sd plus 5", " al muhajirin, ", "purwakarta");
  }

  lemma PurwakartaCanonical()
    ensures "SDS Plus 5 AlMuhajirin" == "SDS Plus " + "5" + " AlMuhajirin"
  {
    assert "SDS Plus " + "5" == "SDS Plus 5";
  }

  lemma PurwakartaTitleText()
    ensures "SD Plus 5 AlMuhajirin, Purwakarta" == "SD Plus " + "5" + " AlMuhajirin, " + "Purwakarta"
  {
    assert "SD Plus " + "5" == "SD Plus 5";
    assert " AlMuhajirin, " + "Purwakarta" == " AlMuhajirin, Purwakarta";
    AppendAssoc("SD Plus 5", " AlMuhajirin, ", "Purwakarta");
  }

  /**
   * Any casing of `SD Plus <digits> Al Muhajirin, <place>`, for a one-word
   * place name that is not an acronym, is title-cased to `SD Plus <digits>
   * AlMuhajirin, <Place>` and normalised to `SDS Plus <digits> AlMuhajirin`.
   */
  lemma SdPlusAlPlace(name: string, num: string, place: string)
    requires num != [] && AllDigits(num)
    requires IsWordString(place) && place != "al" && place != "almuhajirin" && !MaybeAcronym(CapFirst(place))
    requires Lower(name) == "sd plus " + num + " al muhajirin, " + place
    ensures TitleCaseSmart(name) == "SD Plus " + num + " AlMuhajirin, " + CapFirst(place)
    ensures NormalizeSchoolName(name) == "SDS Plus " + num + " AlMuhajirin"
  {
    SdPlusAlTitle(name, num, place);
    var tail := ", " + CapFirst(place);
    PlaceTail(place);
    PlaceRegroup(num, CapFirst(place));
    SdPlusDropsTail(name, num, tail);
  }

  lemma SdPlusAlTitle(name: string, num: string, place: string)
    requires num != [] && AllDigits(num)
    requires IsWordString(place) && place != "al" && place != "almuhajirin" && !MaybeAcronym(CapFirst(place))
    requires Lower(name) == "sd plus " + num + " al muhajirin, " + place
    ensures TitleCaseSmart(name) == "SD Plus " + num + " AlMuhajirin, " + CapFirst(place)
  {
    assert name != "";
    TitleCaseByTokens(name);
    PlaceTokensOf(num, place);
    PlacePass(num, place);
    PlaceText(num, CapFirst(place));
  }

  /** The tokens of the lowered `sd plus <digits> al muhajirin, <place>`. */
  function PlaceTokens(num: string, place: string): seq<string> {
    ["sd", " "] + (["plus", " "] + ([num, " "] + (["al", " ", "muhajirin"] + ([", "] + [place]))))
  }

  lemma PlaceTokensOf(num: string, place: string)
    requires num != [] && AllDigits(num) && IsWordString(place)
    ensures Tokens("sd plus " + num + " al muhajirin, " + place) == PlaceTokens(num, place)
  {
    var r5 := ["al", " ", "muhajirin"] + ([", "] + [place]);
    PlaceEndTokens(place);
    DigitsToken(num, true);
    var r3 := [num, " "] + r5;
    ConsWordSep(num, " ", r5);
    var r1 := ["plus", " "] + r3;
    ConsWordSep("plus", " ", r3);
    var r0 := ["sd", " "] + r1;
    ConsWordSep("sd", " ", r1);
    PlaceLowerText(num, place);
    TokensOfAlternating(r0);
  }

  /** The tokens of `al muhajirin, <place>`. */
  lemma PlaceEndTokens(place: string)
    requires IsWordString(place)
    ensures Alternating(["al", " ", "muhajirin"] + ([", "] + [place]))
    ensures (["al", " ", "muhajirin"] + ([", "] + [place]))[0] == "al"
    ensures Concat(["al", " ", "muhajirin"] + ([", "] + [place])) == "al" + (" " + ("muhajirin" + (", " + (place + ""))))
  {
    WordTokenOf(place);
    ConsToken(place, []);
    assert [place] == [place] + [];
    var r7 := ["muhajirin", ", "] + [place];
    ConsWordSep("muhajirin", ", ", [place]);
    var r5 := ["al", " "] + r7;
    ConsWordSep("al", " ", r7);
    assert r5 == ["al", " ", "muhajirin"] + ([", "] + [place]);
  }

  lemma PlaceLowerText(num: string, place: string)
    ensures "sd" + (" " + ("plus" + (" " + (num + (" " + ("al" + (" " + ("muhajirin" + (", " + (place + ""))))))))))
         == "sd plus " + num + " al muhajirin, " + place
  {
    assert " " + ("al" + (" " + ("muhajirin" + (", " + (place + ""))))) == " al muhajirin, " + place;
    assert "sd" + (" " + ("plus" + (" " + num))) == "sd plus " + num;
    AppendAssoc("sd plus " + num, " al muhajirin, ", place);
    AppendAssoc("sd" + " " + "plus" + " ", num, " al muhajirin, " + place);
  }

  lemma PlacePass(num: string, place: string)
    requires num != [] && AllDigits(num)
    requires IsWordString(place) && place != "al" && place != "almuhajirin" && !MaybeAcronym(CapFirst(place))
    ensures Pass(PlaceTokens(num, place), true)
         == "SD" + (" " + ("Plus" + (" " + (num + (" " + ("AlMuhajirin" + (", " + (CapFirst(place) + ""))))))))
  {
    PassWord(place, [], true);
    assert [place] == [place] + [];
    FixedWord(place, true);
    NotAcronym(CapFirst(place));
    var r9 := [", "] + [place];
    FixedTokenNonWord(", ", false);
    PassWord(", ", [place], false);
    var r6 := ["al", " ", "muhajirin"] + r9;
    PassAlMuhajirin(" ", r9, true);
    DigitsToken(num, true);
    PassWordSep(num, " ", r6, true);
    PlusHead("sd", [num, " "] + r6);
  }

  /** `, <Place>` starts with a non-word character and stays on one line. */
  lemma PlaceTail(place: string)
    requires IsWordString(place)
    ensures !IsWordChar((", " + CapFirst(place))[0]) && NoLineTerminator(", " + CapFirst(place))
  {
    forall i | 0 <= i < |CapFirst(place)| ensures IsWordChar(CapFirst(place)[i]) {
      assert i > 0 ==> CapFirst(place)[i] == place[i];
    }
  }

  lemma PlaceRegroup(num: string, c: string)
    ensures "SD Plus " + num + " AlMuhajirin, " + c == "SD Plus " + num + " AlMuhajirin" + (", " + c)
  {
    assert " AlMuhajirin, " == " AlMuhajirin" + ", ";
  }

  lemma PlaceText(num: string, place: string)
    ensures "SD" + (" " + ("Plus" + (" " + (num + (" " + ("AlMuhajirin" + (", " + (place + ""))))))))
         == "SD Plus " + num + " AlMuhajirin, " + place
  {
    assert " " + ("AlMuhajirin" + (", " + (place + ""))) == " AlMuhajirin, " + place;
    assert "SD" + (" " + ("Plus" + (" " + num))) == "SD Plus " + num;
    AppendAssoc("SD Plus " + num, " AlMuhajirin, ", place);
    AppendAssoc("SD" + " " + "Plus" + " ", num, " AlMuhajirin, " + place);
  }

  lemma FixedSd()
    ensures FixedToken("sd", true) == "SD"
  {
    FixedWord("sd", true);
    assert CapFirst("sd") == "Sd";
  }

  lemma FixedSds()
    ensures FixedToken("sds", true) == "SDS"
  {
    FixedWord("sds", true);
    assert CapFirst("sds") == "Sds";
  }

  lemma FixedPlus()
    ensures FixedToken("plus", true) == "Plus"
  {
    PlusWord();
    FixedWord("plus", true);
    NotAcronym("Plus");
  }

  lemma PlusWord()
    ensures IsWordString("plus") && CapFirst("plus") == "Plus" && !MaybeAcronym("Plus")
  {
  }

  // ---------------------------------------------------------------------
  // Normalising twice

  /** A run of digits is its own lowered, capitalised and fixed form. */
  lemma DigitsToken(num: string, b: bool)
    requires num != [] && AllDigits(num)
    ensures Lower(num) == num && NoUpper(num) && FixedToken(num, b) == num
    ensures Homogeneous(num) && IsWordToken(num) && !After(num, b)
  {
    DigitsWord(num);
    DigitsFixed(num, b);
  }

  lemma DigitsWord(num: string)
    requires num != [] && AllDigits(num)
    ensures Lower(num) == num && NoUpper(num) && Homogeneous(num) && IsWordToken(num)
    ensures forall i :: 0 <= i < |num| ==> IsWordChar(num[i])
  {
    assert forall i :: 0 <= i < |num| ==> Lower(num)[i] == num[i];
  }

  lemma DigitsFixed(num: string, b: bool)
    requires num != [] && AllDigits(num) && forall i :: 0 <= i < |num| ==> IsWordChar(num[i])
    ensures FixedToken(num, b) == num && !After(num, b)
  {
    FixedWord(num, b);
    assert CapFirst(num) == num;
    NotAcronym(num);
  }

  /** The tokens of the lowered canonical name `SDS Plus <digits> AlMuhajirin`. */
  function CanonicalTokens(num: string): seq<string> {
    ["sds", " "] + (["plus", " "] + ([num, " "] + ["almuhajirin"]))
  }

  lemma CanonicalLower(num: string)
    requires num != [] && AllDigits(num)
    ensures Lower("SDS Plus " + num + " AlMuhajirin") == "sds plus " + num + " almuhajirin"
  {
    DigitsToken(num, true);
    LowerAppend("SDS Plus " + num, " AlMuhajirin");
    LowerAppend("SDS Plus ", num);
    assert Lower("SDS Plus ") == "sds plus ";
    assert Lower(" AlMuhajirin") == " almuhajirin";
  }

  lemma CanonicalTokensOf(num: string)
    requires num != [] && AllDigits(num)
    ensures Tokens(Lower("SDS Plus " + num + " AlMuhajirin")) == CanonicalTokens(num)
  {
    CanonicalLower(num);
    CanonicalAlternating(num);
    CanonicalLowerText(num);
    TokensOfAlternating(CanonicalTokens(num));
  }

  /** The canonical tokens alternate and concatenate, one by one, to the lowered canonical name. */
  lemma CanonicalAlternating(num: string)
    requires num != [] && AllDigits(num)
    ensures Alternating(CanonicalTokens(num))
    ensures Concat(CanonicalTokens(num)) == "sds" + (" " + ("plus" + (" " + (num + (" " + ("almuhajirin" + ""))))))
  {
    DigitsToken(num, true);
    var r6 := ["almuhajirin"];
    WordTokenOf("almuhajirin");
    ConsToken("almuhajirin", []);
    var r4 := [num, " "] + r6;
    ConsWordSep(num, " ", r6);
    var r2 := ["plus", " "] + r4;
    ConsWordSep("plus", " ", r4);
    ConsWordSep("sds", " ", r2);
  }

  lemma CanonicalLowerText(num: string)
    ensures "sds" + (" " + ("plus" + (" " + (num + (" " + ("almuhajirin" + "")))))) == "sds plus " + num + " almuhajirin"
  {
    assert " " + ("almuhajirin" + "") == " almuhajirin";
    AppendAssoc("sds" + " " + "plus" + " ", num, " almuhajirin");
    assert "sds" + (" " + ("plus" + (" " + num))) == "sds plus " + num;
  }

  /** The canonical name is already in title case. */
  lemma CanonicalTitle(num: string)
    requires num != [] && AllDigits(num)
    ensures TitleCaseSmart("SDS Plus " + num + " AlMuhajirin") == "SDS Plus " + num + " AlMuhajirin"
  {
    TitleCaseByTokens("SDS Plus " + num + " AlMuhajirin");
    CanonicalTokensOf(num);
    CanonicalPass(num);
  }

  lemma CanonicalPass(num: string)
    requires num != [] && AllDigits(num)
    ensures Pass(CanonicalTokens(num), true) == "SDS Plus " + num + " AlMuhajirin"
  {
    CanonicalTail(num);
    PlusHead("sds", [num, " "] + ["almuhajirin"]);
    CanonicalText(num);
  }

  /** The digits and the merged `almuhajirin` after them. */
  lemma CanonicalTail(num: string)
    requires num != [] && AllDigits(num)
    ensures Pass([num, " "] + ["almuhajirin"], true) == num + (" " + ("AlMuhajirin" + ""))
  {
    PassMerged([], true);
    assert ["almuhajirin"] == ["almuhajirin"] + [];
    DigitsToken(num, true);
    PassWordSep(num, " ", ["almuhajirin"], true);
  }

  /** `sd plus ` or `sds plus ` in front of any tokens. */
  lemma PlusHead(p: string, rest: seq<string>)
    requires p == "sd" || p == "sds"
    ensures Pass([p, " "] + (["plus", " "] + rest), true)
         == (if p == "sd" then "SD" else "SDS") + (" " + ("Plus" + (" " + Pass(rest, true))))
  {
    PassWordSep("plus", " ", rest, true);
    FixedPlus();
    PassWordSep(p, " ", ["plus", " "] + rest, true);
    if p == "sd" {
      FixedSd();
    } else {
      FixedSds();
    }
  }

  lemma CanonicalText(num: string)
    ensures "SDS" + (" " + ("Plus" + (" " + (num + (" " + ("AlMuhajirin" + "")))))) == "SDS Plus " + num + " AlMuhajirin"
  {
    assert " " + ("AlMuhajirin" + "") == " AlMuhajirin";
    AppendAssoc("SDS" + " " + "Plus" + " ", num, " AlMuhajirin");
    assert "SDS" + (" " + ("Plus" + (" " + num))) == "SDS Plus " + num;
  }

  /** The match of the canonical name. */
  function SdsPlus(digits: string): SchoolMatch {
    SchoolMatch("SDS", " ", Some(("Plus", " ")), Number(digits, " ", Ending(Some(("Al", "")), "Muhajirin", "")))
  }

  lemma SdsPlusOk(digits: string)
    requires digits != [] && AllDigits(digits)
    ensures MatchOk(SdsPlus(digits))
    ensures MatchText(SdsPlus(digits)) == "SDS Plus " + digits + " AlMuhajirin"
  {
    SdPlusWords();
    var m := SdsPlus(digits);
    assert Lower("SDS") == "sds";
    assert EndingOk(m.number.ending);
    assert NumberOk(m.number);
    assert PlusText(m.plus) == "Plus ";
    assert EndingText(m.number.ending) == "AlMuhajirin";
  }

  /** Normalising a school name twice gives what normalising it once gives. */
  lemma NormalizeSchoolNameIdempotent(name: string)
    ensures NormalizeSchoolName(NormalizeSchoolName(name)) == NormalizeSchoolName(name)
  {
    var out := TitleCaseSmart(name);
    match SchoolParts(out)
    case None =>
      TitleCaseIdempotent(name);
    case Some(m) =>
      SchoolPartsSound(out, m);
      var num := m.number.digits;
      CanonicalTitle(num);
      SdsPlusOk(num);
      NormalizeMatched("SDS Plus " + num + " AlMuhajirin", SdsPlus(num));
  }

  /** A trimmed school name stays trimmed. */
  lemma NormalizeSchoolNameTrimmed(name: string)
    requires Trim(name) == name
    ensures Trim(NormalizeSchoolName(name)) == NormalizeSchoolName(name)
  {
    var out := TitleCaseSmart(name);
    TitleCaseTrimmed(name);
    match SchoolParts(out)
    case None =>
    case Some(m) =>
      var z := "SDS Plus " + m.number.digits + " AlMuhajirin";
      assert z[0] == 'S' && z[|z| - 1] == 'n';
      TrimmedEnds(z);
  }
}
