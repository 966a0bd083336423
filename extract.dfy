/**
 * Extraction of a verification code from the text of an e-mail, written as
 * two explicit scanners.
 *
 * Stage 1 is the labelled pattern
 *     (?:验证码|code|verification|passcode|pin).*?[:：]\s*([A-Za-z0-9]{4,8})\b
 * searched case-insensitively with `.` matching newlines: the leftmost keyword
 * occurrence that has, at or after its end, a colon followed by optional
 * whitespace and a run of 4 to 8 characters of the class `[A-Za-z0-9]`
 * ending at a word boundary; for that keyword the nearest such colon.
 * Ignoring case folds ASCII capitals and four non-ASCII letters (see
 * `FoldChar`), both in the keywords and in the class. Stage 2 is the fallback
 * `\b\d{6}\b`: the leftmost word-bounded run of exactly six digits.
 */
module CodeExtractor {
  import opened Chars

  /** The keyword alternation, in the pattern's order; lower case, since matching ignores case. */
  const Keywords: seq<string> := ["验证码", "code", "verification", "passcode", "pin"]

  predicate IsColon(c: char) { c == ':' || c == '：' }

  /** `kw` matches case-insensitively at position `s` of `t`. */
  predicate KeywordAt(t: string, s: nat, kw: string)
  {
    s + |kw| <= |t| && forall j :: 0 <= j < |kw| ==> FoldIs(t, s + j, kw[j])
  }

  /** The character at `i` is `c` as case-insensitive matching reads it. */
  predicate FoldIs(t: string, i: nat, c: char)
  {
    i < |t| && FoldChar(t[i]) == c
  }

  // The scanner tests each keyword letter by letter.

  predicate YanZhengMaAt(t: string, s: nat)
  {
    FoldIs(t, s, '验') && FoldIs(t, s + 1, '证') && FoldIs(t, s + 2, '码')
  }

  predicate CodeWordAt(t: string, s: nat)
  {
    FoldIs(t, s, 'c') && FoldIs(t, s + 1, 'o') && FoldIs(t, s + 2, 'd') && FoldIs(t, s + 3, 'e')
  }

  predicate VerificationAt(t: string, s: nat)
  {
    FoldIs(t, s, 'v') && FoldIs(t, s + 1, 'e') && FoldIs(t, s + 2, 'r') && FoldIs(t, s + 3, 'i')
    && FoldIs(t, s + 4, 'f') && FoldIs(t, s + 5, 'i') && FoldIs(t, s + 6, 'c') && FoldIs(t, s + 7, 'a')
    && FoldIs(t, s + 8, 't') && FoldIs(t, s + 9, 'i') && FoldIs(t, s + 10, 'o') && FoldIs(t, s + 11, 'n')
  }

  predicate PasscodeAt(t: string, s: nat)
  {
    FoldIs(t, s, 'p') && FoldIs(t, s + 1, 'a') && FoldIs(t, s + 2, 's') && FoldIs(t, s + 3, 's')
    && CodeWordAt(t, s + 4)
  }

  predicate PinAt(t: string, s: nat)
  {
    FoldIs(t, s, 'p') && FoldIs(t, s + 1, 'i') && FoldIs(t, s + 2, 'n')
  }

  /**
   * The length of the keyword the alternation matches at `s`, trying the
   * alternatives in the pattern's order, or 0 when none matches.
   */
  function KeywordLength(t: string, s: nat): (n: nat)
    ensures n != 0 ==> s + n <= |t|
  {
    if YanZhengMaAt(t, s) then 3
    else if CodeWordAt(t, s) then 4
    else if VerificationAt(t, s) then 12
    else if PasscodeAt(t, s) then 8
    else if PinAt(t, s) then 3
    else 0
  }

  /** Each letter-by-letter test is the keyword's match. */
  lemma SpelledKeywords(t: string, s: nat)
    ensures YanZhengMaAt(t, s) <==> KeywordAt(t, s, Keywords[0])
    ensures CodeWordAt(t, s) <==> KeywordAt(t, s, Keywords[1])
    ensures VerificationAt(t, s) <==> KeywordAt(t, s, Keywords[2])
    ensures PasscodeAt(t, s) <==> KeywordAt(t, s, Keywords[3])
    ensures PinAt(t, s) <==> KeywordAt(t, s, Keywords[4])
  {
    YanZhengMaSpelled(t, s);
    CodeWordSpelled(t, s);
    VerificationSpelled(t, s);
    PasscodeSpelled(t, s);
    PinSpelled(t, s);
  }

  lemma YanZhengMaSpelled(t: string, s: nat)
    ensures YanZhengMaAt(t, s) <==> KeywordAt(t, s, Keywords[0])
  {
    var kw := Keywords[0];
    assert |kw| == 3 && kw[0] == '验' && kw[1] == '证' && kw[2] == '码';
    if YanZhengMaAt(t, s) {
      forall j | 0 <= j < |kw|
        ensures FoldIs(t, s + j, kw[j])
      {
      }
    }
    if KeywordAt(t, s, kw) {
      assert FoldIs(t, s, kw[0]) && FoldIs(t, s + 1, kw[1]) && FoldIs(t, s + 2, kw[2]);
    }
  }

  lemma CodeWordSpelled(t: string, s: nat)
    ensures CodeWordAt(t, s) <==> KeywordAt(t, s, Keywords[1])
  {
    var kw := Keywords[1];
    assert |kw| == 4 && kw[0] == 'c' && kw[1] == 'o' && kw[2] == 'd' && kw[3] == 'e';
    if CodeWordAt(t, s) {
      forall j | 0 <= j < |kw|
        ensures FoldIs(t, s + j, kw[j])
      {
      }
    }
    if KeywordAt(t, s, kw) {
      assert FoldIs(t, s, kw[0]) && FoldIs(t, s + 1, kw[1]) && FoldIs(t, s + 2, kw[2]) && FoldIs(t, s + 3, kw[3]);
    }
  }

  lemma VerificationSpelled(t: string, s: nat)
    ensures VerificationAt(t, s) <==> KeywordAt(t, s, Keywords[2])
  {
    var kw := Keywords[2];
    assert |kw| == 12 && kw[0] == 'v' && kw[1] == 'e' && kw[2] == 'r' && kw[3] == 'i' && kw[4] == 'f' && kw[5] == 'i' && kw[6] == 'c' && kw[7] == 'a' && kw[8] == 't' && kw[9] == 'i' && kw[10] == 'o' && kw[11] == 'n';
    if VerificationAt(t, s) {
      forall j | 0 <= j < |kw|
        ensures FoldIs(t, s + j, kw[j])
      {
      }
    }
    if KeywordAt(t, s, kw) {
      assert FoldIs(t, s, kw[0]) && FoldIs(t, s + 1, kw[1]) && FoldIs(t, s + 2, kw[2]) && FoldIs(t, s + 3, kw[3]) && FoldIs(t, s + 4, kw[4]) && FoldIs(t, s + 5, kw[5]) && FoldIs(t, s + 6, kw[6]) && FoldIs(t, s + 7, kw[7]) && FoldIs(t, s + 8, kw[8]) && FoldIs(t, s + 9, kw[9]) && FoldIs(t, s + 10, kw[10]) && FoldIs(t, s + 11, kw[11]);
    }
  }

  lemma PasscodeSpelled(t: string, s: nat)
    ensures PasscodeAt(t, s) <==> KeywordAt(t, s, Keywords[3])
  {
    var kw := Keywords[3];
    assert |kw| == 8 && kw[0] == 'p' && kw[1] == 'a' && kw[2] == 's' && kw[3] == 's' && kw[4] == 'c' && kw[5] == 'o' && kw[6] == 'd' && kw[7] == 'e';
    if PasscodeAt(t, s) {
      forall j | 0 <= j < |kw|
        ensures FoldIs(t, s + j, kw[j])
      {
      }
    }
    if KeywordAt(t, s, kw) {
      assert FoldIs(t, s, kw[0]) && FoldIs(t, s + 1, kw[1]) && FoldIs(t, s + 2, kw[2]) && FoldIs(t, s + 3, kw[3]) && FoldIs(t, s + 4, kw[4]) && FoldIs(t, s + 5, kw[5]) && FoldIs(t, s + 6, kw[6]) && FoldIs(t, s + 7, kw[7]);
    }
  }

  lemma PinSpelled(t: string, s: nat)
    ensures PinAt(t, s) <==> KeywordAt(t, s, Keywords[4])
  {
    var kw := Keywords[4];
    assert |kw| == 3 && kw[0] == 'p' && kw[1] == 'i' && kw[2] == 'n';
    if PinAt(t, s) {
      forall j | 0 <= j < |kw|
        ensures FoldIs(t, s + j, kw[j])
      {
      }
    }
    if KeywordAt(t, s, kw) {
      assert FoldIs(t, s, kw[0]) && FoldIs(t, s + 1, kw[1]) && FoldIs(t, s + 2, kw[2]);
    }
  }

  /** Where the keyword group ends when it matches at `s`. */
  function KeywordEnd(t: string, s: nat): (e: Option<nat>)
    ensures e.Some? ==> s < e.value <= |t|
  {
    var n := KeywordLength(t, s);
    if n == 0 then None else Some(s + n)
  }

  /**
   * The scanner's keyword test is the alternation: it succeeds exactly when
   * some keyword matches at `s`, and it then ends where that keyword ends,
   * since no two keywords match at the same position.
   */
  lemma KeywordEndIsAlternation(t: string, s: nat)
    ensures KeywordEnd(t, s).Some? <==> exists k :: 0 <= k < |Keywords| && KeywordAt(t, s, Keywords[k])
    ensures forall k :: 0 <= k < |Keywords| && KeywordAt(t, s, Keywords[k]) ==> KeywordEnd(t, s) == Some(s + |Keywords[k]|)
  {
    SpelledKeywords(t, s);
  }

  // ---------------------------------------------------------------------------
  // The tail `\s*([A-Za-z0-9]{4,8})\b`

  datatype Span = Span(pos: nat, len: nat)

  /** `\b` just after a word character: the end of the text or a non-word character. */
  predicate WordEnds(t: string, q: nat)
  {
    q == |t| || (q < |t| && !IsWordChar(t[q]))
  }

  /** `[A-Za-z0-9]{4,8}\b` matches `t[p..p + n]`. */
  predicate CodeSpan(t: string, p: nat, n: nat)
  {
    4 <= n <= 8 && p + n <= |t|
    && (forall i :: p <= i < p + n ==> IsCodeChar(t[i]))
    && WordEnds(t, p + n)
  }

  /** The tail pattern, started at `i`, can match with its group capturing `t[p..p + n]`. */
  predicate TailAt(t: string, i: nat, p: nat, n: nat)
  {
    CodeSpan(t, p, n) && i <= p && forall k :: i <= k < p ==> IsSpace(t[k])
  }

  function AlnumRunEnd(t: string, p: nat): (q: nat)
    requires p <= |t|
    ensures p <= q <= |t|
    decreases |t| - p
  {
    if p < |t| && IsCodeChar(t[p]) then AlnumRunEnd(t, p + 1) else p
  }

  /** `AlnumRunEnd` takes the whole run of code characters and no more. */
  lemma {:induction false} AlnumRunEndTakesRun(t: string, p: nat)
    requires p <= |t|
    ensures forall i :: p <= i < AlnumRunEnd(t, p) ==> IsCodeChar(t[i])
    ensures AlnumRunEnd(t, p) < |t| ==> !IsCodeChar(t[AlnumRunEnd(t, p)])
    decreases |t| - p
  {
    if p < |t| && IsCodeChar(t[p]) {
      AlnumRunEndTakesRun(t, p + 1);
    }
  }

  /** The tail as a scanner: skip whitespace, take the whole run of code characters, accept a run of 4 to 8 before a boundary. */
  function Tail(t: string, i: nat): (r: Option<Span>)
    requires i <= |t|
    ensures r.Some? ==> i <= r.value.pos && 4 <= r.value.len <= 8 && r.value.pos + r.value.len <= |t|
    decreases |t| - i
  {
    if i < |t| && IsSpace(t[i]) then Tail(t, i + 1)
    else
      var q := AlnumRunEnd(t, i);
      if 4 <= q - i <= 8 && WordEnds(t, q) then Some(Span(i, q - i)) else None
  }

  /**
   * The tail pattern admits exactly one capture, the one the scanner takes:
   * backtracking into `\s*` or into `{4,8}` never yields another.
   */
  lemma {:induction false} TailIsPattern(t: string, i: nat, p: nat, n: nat)
    requires i <= |t|
    ensures TailAt(t, i, p, n) <==> Tail(t, i) == Some(Span(p, n))
    decreases |t| - i
  {
    if i < |t| && IsSpace(t[i]) {
      ClassesNest(t[i]);
      TailIsPattern(t, i + 1, p, n);
      if TailAt(t, i, p, n) {
        assert p != i;
      }
    } else {
      AlnumRunEndTakesRun(t, i);
      if TailAt(t, i, p, n) {
        assert p == i;
        if p + n < |t| { ClassesNest(t[p + n]); }
      }
    }
  }

  // ---------------------------------------------------------------------------
  // Stage 1: the labelled code

  predicate ColonTail(t: string, c: nat)
  {
    c < |t| && IsColon(t[c]) && Tail(t, c + 1).Some?
  }

  /** The labelled pattern matches with its keyword at `s` and its colon at `c`. */
  predicate LabelMatch(t: string, s: nat, c: nat)
  {
    KeywordEnd(t, s).Some? && KeywordEnd(t, s).value <= c && ColonTail(t, c)
  }

  /** A colon the tail can follow, with the tail's capture. */
  datatype Hit = Hit(colon: nat, code: Span)

  /** The lazy `.*?`: the first colon at or after `c` that the tail can follow. */
  function ScanColons(t: string, c: nat): (r: Option<Hit>)
    requires c <= |t|
    ensures r.Some? ==> c <= r.value.colon < |t| && IsColon(t[r.value.colon]) && Tail(t, r.value.colon + 1) == Some(r.value.code)
    decreases |t| - c
  {
    if c == |t| then None
    else if IsColon(t[c]) && Tail(t, c + 1).Some? then Some(Hit(c, Tail(t, c + 1).value))
    else ScanColons(t, c + 1)
  }

  /** The colon found is the nearest: none the scan passed over can be followed by the tail. */
  lemma {:induction false} ScanColonsNearest(t: string, c: nat, d: nat)
    requires c <= d && c <= |t|
    requires ScanColons(t, c).None? || d < ScanColons(t, c).value.colon
    ensures !ColonTail(t, d)
    decreases |t| - c
  {
    if c < |t| && c < d {
      ScanColonsNearest(t, c + 1, d);
    }
  }

  /** Where the search found the pattern: the keyword's start, the colon's position and the capture. */
  datatype Label = Label(start: nat, colon: nat, code: Span)

  /** No keyword at `s`, or no colon the tail can follow after it: the pattern cannot match with its keyword at `s`. */
  lemma NoLabelAt(t: string, s: nat)
    requires KeywordEnd(t, s).Some? ==> ScanColons(t, KeywordEnd(t, s).value).None?
    ensures forall d: nat :: !LabelMatch(t, s, d)
  {
    forall d: nat | KeywordEnd(t, s).Some? && KeywordEnd(t, s).value <= d
      ensures !ColonTail(t, d)
    {
      ScanColonsNearest(t, KeywordEnd(t, s).value, d);
    }
  }

  /** The search: the first start position from `s` on at which the labelled pattern matches, with the colon the lazy `.*?` reaches first. */
  function ScanLabel(t: string, s: nat): (r: Option<Label>)
    requires s <= |t|
    ensures r.Some? ==> s <= r.value.start && KeywordEnd(t, r.value.start).Some?
    ensures r.Some? ==> ScanColons(t, KeywordEnd(t, r.value.start).value) == Some(Hit(r.value.colon, r.value.code))
    decreases |t| - s
  {
    if s == |t| then None
    else
      var e := KeywordEnd(t, s);
      var h := if e.Some? then ScanColons(t, e.value) else None;
      if h.Some? then Some(Label(s, h.value.colon, h.value.code)) else ScanLabel(t, s + 1)
  }

  lemma ScanLabelStep(t: string, s: nat)
    requires s < |t|
    ensures (ScanLabel(t, s).Some? && ScanLabel(t, s).value.start == s) || ScanLabel(t, s) == ScanLabel(t, s + 1)
  {
  }

  /** A colon the scan finds after a keyword completes a match, and no nearer colon does. */
  lemma HitMatches(t: string, s: nat, e: nat, h: Hit)
    requires KeywordEnd(t, s) == Some(e) && e <= |t| && ScanColons(t, e) == Some(h)
    ensures LabelMatch(t, s, h.colon)
    ensures Tail(t, h.colon + 1) == Some(h.code)
    ensures forall d: nat :: d < h.colon ==> !LabelMatch(t, s, d)
  {
    forall d: nat | e <= d < h.colon
      ensures !ColonTail(t, d)
    {
      ScanColonsNearest(t, e, d);
    }
  }

  /** What the search returns is a match with the tail's capture, and its colon is the nearest one for that keyword. */
  lemma ScanLabelMatches(t: string, s: nat, l: Label)
    requires s <= |t| && ScanLabel(t, s) == Some(l)
    ensures LabelMatch(t, l.start, l.colon)
    ensures Tail(t, l.colon + 1) == Some(l.code)
    ensures forall d: nat :: d < l.colon ==> !LabelMatch(t, l.start, d)
  {
    HitMatches(t, l.start, KeywordEnd(t, l.start).value, Hit(l.colon, l.code));
  }

  /** The search is leftmost: no start position it passed over admits a match. */
  lemma {:induction false} ScanLabelLeftmost(t: string, s: nat, u: nat, d: nat)
    requires s <= u
    requires s <= |t|
    requires ScanLabel(t, s).None? || u < ScanLabel(t, s).value.start
    ensures !LabelMatch(t, u, d)
    decreases |t| - s
  {
    if s < |t| {
      if u == s {
        NoLabelAt(t, s);
      } else {
        ScanLabelStep(t, s);
        var r := ScanLabel(t, s);
        var r' := ScanLabel(t, s + 1);
        assert r == r';
        assert r'.None? || u < r'.value.start;
        ScanLabelLeftmost(t, s + 1, u, d);
      }
    }
  }

  /** Stage 1 as the source runs it: the group of the first match, if any. */
  function LabelledCode(t: string): (r: Option<string>)
    ensures r.Some? ==> 4 <= |r.value| <= 8
  {
    match ScanLabel(t, 0)
    case None => None
    case Some(l) => Some(t[l.code.pos..l.code.pos + l.code.len])
  }

  /**
   * The labelled pattern, stated as the regular expression reads: some keyword
   * of the alternation at `s`, a colon at `c` at or after its end, and the
   * tail from `c + 1` capturing `t[p..p + n]`.
   */
  ghost predicate PatternMatch(t: string, s: nat, c: nat, p: nat, n: nat)
  {
    (exists k :: 0 <= k < |Keywords| && KeywordAt(t, s, Keywords[k]) && s + |Keywords[k]| <= c)
    && c < |t| && IsColon(t[c]) && TailAt(t, c + 1, p, n)
  }

  /** No match of the pattern has its keyword left of `s`, nor at `s` with its colon left of `c`. */
  ghost predicate Leftmost(t: string, s: nat, c: nat)
  {
    forall s': nat, c': nat, p': nat, n': nat :: PatternMatch(t, s', c', p', n') ==> s < s' || (s == s' && c <= c')
  }

  /** The scanner's view of a match agrees with the pattern's. */
  lemma PatternIsLabelMatch(t: string, s: nat, c: nat, p: nat, n: nat)
    ensures PatternMatch(t, s, c, p, n) <==> LabelMatch(t, s, c) && Tail(t, c + 1) == Some(Span(p, n))
  {
    KeywordEndIsAlternation(t, s);
    if c < |t| {
      TailIsPattern(t, c + 1, p, n);
    }
    if LabelMatch(t, s, c) {
      var k :| 0 <= k < |Keywords| && KeywordAt(t, s, Keywords[k]);
      assert s + |Keywords[k]| <= c;
    }
  }

  lemma LabelMatchIsPattern(t: string, s: nat, c: nat, code: Span)
    requires LabelMatch(t, s, c) && Tail(t, c + 1) == Some(code)
    ensures PatternMatch(t, s, c, code.pos, code.len)
  {
    PatternIsLabelMatch(t, s, c, code.pos, code.len);
  }

  /** The search's result is a match of the pattern. */
  lemma SearchIsMatch(t: string, l: Label)
    requires ScanLabel(t, 0) == Some(l)
    ensures PatternMatch(t, l.start, l.colon, l.code.pos, l.code.len)
  {
    ScanLabelMatches(t, 0, l);
    LabelMatchIsPattern(t, l.start, l.colon, l.code);
  }

  /** Any match of the pattern lies at or after the search's result. */
  lemma SearchPrecedes(t: string, l: Label, s: nat, c: nat, p: nat, n: nat)
    requires ScanLabel(t, 0) == Some(l)
    requires PatternMatch(t, s, c, p, n)
    ensures l.start < s || (l.start == s && l.colon <= c)
  {
    PatternIsLabelMatch(t, s, c, p, n);
    if s < l.start {
      ScanLabelLeftmost(t, 0, s, c);
    } else if s == l.start {
      ScanLabelMatches(t, 0, l);
    }
  }

  /** The search's result is the leftmost match of the pattern. */
  lemma SearchIsLeftmost(t: string, l: Label)
    requires ScanLabel(t, 0) == Some(l)
    ensures Leftmost(t, l.start, l.colon)
  {
    forall s: nat, c: nat, p: nat, n: nat | PatternMatch(t, s, c, p, n)
      ensures l.start < s || (l.start == s && l.colon <= c)
    {
      SearchPrecedes(t, l, s, c, p, n);
    }
  }

  /** Stage 1's result is the capture of the search's result. */
  lemma LabelledCodeOfSearch(t: string, v: string) returns (l: Label)
    requires LabelledCode(t) == Some(v)
    ensures ScanLabel(t, 0) == Some(l)
    ensures l.code.len == |v| && v == t[l.code.pos..l.code.pos + l.code.len]
  {
    l := ScanLabel(t, 0).value;
  }

  /**
   * Stage 1 returns the group of the leftmost match of the pattern: no match
   * has its keyword further left, and none with the same keyword has its
   * colon nearer.
   */
  lemma LabelledCodeIsLeftmostMatch(t: string, v: string)
    requires LabelledCode(t) == Some(v)
    ensures exists s: nat, c: nat, p: nat :: PatternMatch(t, s, c, p, |v|) && t[p..p + |v|] == v && Leftmost(t, s, c)
  {
    var l := LabelledCodeOfSearch(t, v);
    SearchIsMatch(t, l);
    SearchIsLeftmost(t, l);
    assert PatternMatch(t, l.start, l.colon, l.code.pos, |v|) && t[l.code.pos..l.code.pos + |v|] == v && Leftmost(t, l.start, l.colon);
  }

  /** A code span's text is made of characters of the class `[A-Za-z0-9]` read without case. */
  lemma CodeSpanText(t: string, p: nat, n: nat, v: string)
    requires CodeSpan(t, p, n) && v == t[p..p + n]
    ensures forall i :: 0 <= i < |v| ==> IsCodeChar(v[i])
  {
  }

  /**
   * A stage-1 code is 4 to 8 characters of the class `[A-Za-z0-9]`, read
   * without case, that the text follows with a non-word character or its end.
   */
  lemma LabelledCodeShape(t: string, v: string)
    requires LabelledCode(t) == Some(v)
    ensures forall i :: 0 <= i < |v| ==> IsCodeChar(v[i])
    ensures exists p: nat :: CodeSpan(t, p, |v|) && t[p..p + |v|] == v
  {
    var l := LabelledCodeOfSearch(t, v);
    ScanLabelMatches(t, 0, l);
    TailIsPattern(t, l.colon + 1, l.code.pos, l.code.len);
    CodeSpanText(t, l.code.pos, l.code.len, v);
    assert CodeSpan(t, l.code.pos, |v|) && t[l.code.pos..l.code.pos + |v|] == v;
  }

  /** Whenever the pattern matches somewhere, stage 1 finds a code. */
  lemma LabelledCodeComplete(t: string, s: nat, c: nat, p: nat, n: nat)
    requires PatternMatch(t, s, c, p, n)
    ensures LabelledCode(t).Some?
  {
    PatternIsLabelMatch(t, s, c, p, n);
    if ScanLabel(t, 0).None? {
      ScanLabelLeftmost(t, 0, s, c);
    }
  }

  // ---------------------------------------------------------------------------
  // Stage 2: a bare six-digit number

  /** `\b\d{6}\b` matches `t[p..p + 6]`. */
  predicate SixDigitsAt(t: string, p: nat)
  {
    p + 6 <= |t|
    && (p == 0 || !IsWordChar(t[p - 1]))
    && (forall i :: p <= i < p + 6 ==> IsDigit(t[i]))
    && WordEnds(t, p + 6)
  }

  function ScanSixDigits(t: string, p: nat): (r: Option<nat>)
    requires p <= |t|
    ensures r.Some? ==> p <= r.value && SixDigitsAt(t, r.value)
    ensures forall q: nat :: p <= q && (r.None? || q < r.value) ==> !SixDigitsAt(t, q)
    decreases |t| - p
  {
    if p == |t| then None
    else if SixDigitsAt(t, p) then Some(p)
    else ScanSixDigits(t, p + 1)
  }

  function BareDigitsCode(t: string): (r: Option<string>)
    ensures r.Some? ==> |r.value| == 6
  {
    match ScanSixDigits(t, 0)
    case Some(p) => Some(t[p..p + 6])
    case None => None
  }

  // ---------------------------------------------------------------------------
  // The extractor

  /** The labelled code if there is one, else the first bare six-digit number, else nothing. */
  function ExtractCode(t: string): (r: Option<string>)
    ensures r.Some? ==> 4 <= |r.value| <= 8
  {
    if LabelledCode(t).Some? then LabelledCode(t) else BareDigitsCode(t)
  }

  /** Some match of the labelled pattern exists. */
  ghost predicate PatternMatches(t: string)
  {
    exists s: nat, c: nat, p: nat, n: nat :: PatternMatch(t, s, c, p, n)
  }

  /** Stage 1 finds a code exactly when the labelled pattern matches somewhere. */
  lemma LabelledCodeIffMatches(t: string)
    ensures LabelledCode(t).Some? <==> PatternMatches(t)
  {
    if LabelledCode(t).Some? {
      LabelledCodeIsLeftmostMatch(t, LabelledCode(t).value);
    }
    if PatternMatches(t) {
      var s: nat, c: nat, p: nat, n: nat :| PatternMatch(t, s, c, p, n);
      LabelledCodeComplete(t, s, c, p, n);
    }
  }

  /** Stage 2 returns the leftmost word-bounded run of six digits. */
  lemma BareDigitsLeftmost(t: string, q: nat)
    requires SixDigitsAt(t, q)
    requires forall q': nat :: q' < q ==> !SixDigitsAt(t, q')
    ensures BareDigitsCode(t) == Some(t[q..q + 6])
  {
    assert ScanSixDigits(t, 0) == Some(q);
  }

  /** Stage 2 finds nothing exactly when no run of six digits is word-bounded. */
  lemma BareDigitsNone(t: string)
    ensures BareDigitsCode(t).None? <==> forall q: nat :: !SixDigitsAt(t, q)
  {
  }

  /** Whenever the labelled pattern matches, its code wins over any bare digits. */
  lemma LabelTakesPrecedence(t: string, s: nat, c: nat, p: nat, n: nat)
    requires PatternMatch(t, s, c, p, n)
    ensures ExtractCode(t).Some? && ExtractCode(t) == LabelledCode(t)
  {
    LabelledCodeComplete(t, s, c, p, n);
  }

  /** Without a labelled match, the result is the leftmost bare six-digit number. */
  lemma FallbackIsLeftmostDigits(t: string, q: nat)
    requires !PatternMatches(t)
    requires SixDigitsAt(t, q)
    requires forall q': nat :: q' < q ==> !SixDigitsAt(t, q')
    ensures ExtractCode(t) == Some(t[q..q + 6])
  {
    LabelledCodeIffMatches(t);
    BareDigitsLeftmost(t, q);
  }

  /** The extractor gives up exactly when neither pattern matches anywhere. */
  lemma ExtractNoneIff(t: string)
    ensures ExtractCode(t).None? <==> !PatternMatches(t) && forall q: nat :: !SixDigitsAt(t, q)
  {
    LabelledCodeIffMatches(t);
    BareDigitsNone(t);
  }

  /** The labelled pattern cannot match a text without a colon. */
  lemma ColonNeeded(t: string)
    requires forall i :: 0 <= i < |t| ==> !IsColon(t[i])
    ensures !PatternMatches(t)
  {
  }

  /** A text of digits alone has a code exactly when it is six digits long, and the code is the text. */
  lemma DigitsOnlyText(t: string)
    requires IsDecimal(t)
    ensures ExtractCode(t).Some? <==> |t| == 6
    ensures |t| == 6 ==> ExtractCode(t) == Some(t)
  {
    forall i | 0 <= i < |t|
      ensures !IsColon(t[i])
    {
    }
    ColonNeeded(t);
    LabelledCodeIffMatches(t);
    forall q: nat | SixDigitsAt(t, q)
      ensures q == 0 && |t| == 6
    {
    }
    if |t| == 6 {
      forall i | 0 <= i < 6
        ensures IsDigit(t[i])
      {
      }
      assert SixDigitsAt(t, 0);
      BareDigitsLeftmost(t, 0);
      assert t[0..6] == t;
    }
  }

  // ---------------------------------------------------------------------------
  // Worked examples

  lemma ExampleLabelled()
    ensures ExtractCode("code: AB12CD") == Some("AB12CD")
  {
    var t := "code: AB12CD";
    assert t[0] == 'c' && t[1] == 'o' && t[2] == 'd' && t[3] == 'e' && t[4] == ':' && t[5] == ' ';
    assert KeywordEnd(t, 0) == Some(4);
    assert AlnumRunEnd(t, 12) == 12;
    assert AlnumRunEnd(t, 11) == 12;
    assert AlnumRunEnd(t, 10) == 12;
    assert AlnumRunEnd(t, 9) == 12;
    assert AlnumRunEnd(t, 8) == 12;
    assert AlnumRunEnd(t, 7) == 12;
    assert AlnumRunEnd(t, 6) == 12;
    assert Tail(t, 5) == Some(Span(6, 6));
    assert ScanColons(t, 4) == Some(Hit(4, Span(6, 6)));
    assert ScanLabel(t, 0) == Some(Label(0, 4, Span(6, 6)));
    assert t[6..12] == "AB12CD";
  }

  /** Upper case keywords and the full-width colon are accepted. */
  lemma ExampleFullWidthColon()
    ensures ExtractCode("PIN：7X9Q") == Some("7X9Q")
  {
    var t := "PIN：7X9Q";
    assert t[0] == 'P' && t[1] == 'I' && t[2] == 'N' && t[3] == '：';
    assert KeywordEnd(t, 0) == Some(3);
    assert AlnumRunEnd(t, 8) == 8;
    assert AlnumRunEnd(t, 7) == 8;
    assert AlnumRunEnd(t, 6) == 8;
    assert AlnumRunEnd(t, 5) == 8;
    assert AlnumRunEnd(t, 4) == 8;
    assert ScanColons(t, 3) == Some(Hit(3, Span(4, 4)));
    assert ScanLabel(t, 0) == Some(Label(0, 3, Span(4, 4)));
    assert t[4..8] == "7X9Q";
  }

  /** A dotless i (U+0131) matches the `i` of `pin` once case is ignored. */
  lemma ExampleDotlessI()
    ensures ExtractCode("p\U{0131}n: ABCD") == Some("ABCD")
  {
    var t := "p\U{0131}n: ABCD";
    assert t[0] == 'p' && t[1] as int == 0x131 && t[2] == 'n' && t[3] == ':' && t[4] == ' ';
    assert KeywordEnd(t, 0) == Some(3);
    assert AlnumRunEnd(t, 9) == 9;
    assert AlnumRunEnd(t, 8) == 9;
    assert AlnumRunEnd(t, 7) == 9;
    assert AlnumRunEnd(t, 6) == 9;
    assert AlnumRunEnd(t, 5) == 9;
    assert Tail(t, 4) == Some(Span(5, 4));
    assert ScanColons(t, 3) == Some(Hit(3, Span(5, 4)));
    assert ScanLabel(t, 0) == Some(Label(0, 3, Span(5, 4)));
    assert t[5..9] == "ABCD";
  }
}
