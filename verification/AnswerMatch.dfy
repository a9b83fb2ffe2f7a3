/**
 Reading spoken numbers (src/onboarding/onboarding-answer-match.ts), over an abstract lexicon and
 texts already normalized into tokens. The ambiguous-word rule of strict readings is not part of it.
 */
module AnswerMatch {
  import opened Numerals
  import opened Options

  datatype Family = En | Hi

  datatype NumberWord = NumberWord(value: nat, family: Family, tens: bool)

  datatype Lexicon = Lexicon(
    numbers: map<string, NumberWord>, hundred: set<string>, thousand: set<string>, conj: set<string>,
      article: set<string>)

  /** No word plays two roles, and none is a digit string; only English tens combine with a unit. */
  ghost predicate Sane(lx: Lexicon) {
    && lx.hundred !! lx.thousand !! lx.conj !! lx.article !! lx.numbers.Keys
    && (forall t :: IsDigits(t) ==>
          t !in lx.hundred && t !in lx.thousand && t !in lx.conj && t !in lx.article && t !in lx.numbers)
  }

  datatype Span = Span(value: nat, start: nat, end: nat)

  predicate At(toks: seq<string>, pos: nat, words: set<string>) { pos < |toks| && toks[pos] in words }

  /** A single-digit number word, the kind a number read out digit by digit is made of. */
  predicate DigitWord(lx: Lexicon, toks: seq<string>, pos: nat) {
    pos < |toks| && toks[pos] in lx.numbers && !lx.numbers[toks[pos]].tens && lx.numbers[toks[pos]].value <= 9
  }

  function RunEnd(lx: Lexicon, toks: seq<string>, pos: nat): (end: nat)
    ensures end >= pos
    decreases |toks| - pos
  {
    if DigitWord(lx, toks, pos) then RunEnd(lx, toks, pos + 1) else pos
  }

  function RunValue(lx: Lexicon, toks: seq<string>, pos: nat, end: nat): nat
    requires pos <= end && forall k :: pos <= k < end ==> DigitWord(lx, toks, k)
    decreases end
  {
    if pos == end then 0
    else
      assert DigitWord(lx, toks, end - 1);
      10 * RunValue(lx, toks, pos, end - 1) + lx.numbers[toks[end - 1]].value
  }

  lemma {:induction false} RunIsDigits(lx: Lexicon, toks: seq<string>, pos: nat)
    ensures forall k :: pos <= k < RunEnd(lx, toks, pos) ==> DigitWord(lx, toks, k)
    ensures !DigitWord(lx, toks, RunEnd(lx, toks, pos))
    decreases |toks| - pos
  {
    if DigitWord(lx, toks, pos) { RunIsDigits(lx, toks, pos + 1); }
  }

  function DigitRun(lx: Lexicon, toks: seq<string>, i: nat): Option<Span> {
    RunIsDigits(lx, toks, i);
    var end := RunEnd(lx, toks, i);
    if end - i >= 2 then Some(Span(RunValue(lx, toks, i, end), i, end)) else None
  }

  method ReadDigitRun(lx: Lexicon, toks: seq<string>, i: nat) returns (r: Option<Span>)
    ensures r == DigitRun(lx, toks, i)
  {
    var pos, value := i, 0;
    RunIsDigits(lx, toks, i);
    while pos < |toks| && toks[pos] in lx.numbers && !lx.numbers[toks[pos]].tens && lx.numbers[toks[pos]].value <= 9
      invariant i <= pos && RunEnd(lx, toks, pos) == RunEnd(lx, toks, i)
      invariant (forall k :: i <= k < pos ==> DigitWord(lx, toks, k)) && value == RunValue(lx, toks, i, pos)
      decreases |toks| - pos
    {
      value := 10 * value + lx.numbers[toks[pos]].value;
      pos := pos + 1;
    }
    r := if pos - i >= 2 then Some(Span(value, i, pos)) else None;
  }

  function BelowHundred(lx: Lexicon, toks: seq<string>, i: nat): Option<Span> {
    if i >= |toks| then None
    else if IsDigits(toks[i]) then Some(Span(ParseInt(toks[i]), i, i + 1))
    else if DigitRun(lx, toks, i).Some? then DigitRun(lx, toks, i)
    else if toks[i] !in lx.numbers then None
    else
      var word := lx.numbers[toks[i]];
      if word.tens && i + 1 < |toks| && toks[i + 1] in lx.numbers &&
         (var next := lx.numbers[toks[i + 1]]; next.family == En && !next.tens && 1 <= next.value <= 9)
      then Some(Span(word.value + lx.numbers[toks[i + 1]].value, i, i + 2))
      else Some(Span(word.value, i, i + 1))
  }

  /** The hundreds of a number whose thousands are read, when they are a single word before the scale word. */
  function WithHundreds(lx: Lexicon, toks: seq<string>, value: nat, pos: nat): (nat, nat) {
    if value >= 1000 && At(toks, pos + 1, lx.hundred) then
      var hundreds := BelowHundred(lx, toks, pos);
      if hundreds.Some? && 1 <= hundreds.value.value <= 9 then
        (value + hundreds.value.value * 100, hundreds.value.end + 1)
      else (value, pos)
    else (value, pos)
  }

  function WithRest(lx: Lexicon, toks: seq<string>, value: nat, pos: nat): (nat, nat) {
    var rest := BelowHundred(lx, toks, if At(toks, pos, lx.conj) then pos + 1 else pos);
    if rest.Some? && 1 <= rest.value.value <= 99 then (value + rest.value.value, rest.value.end) else (value, pos)
  }

  function Scaled(lx: Lexicon, toks: seq<string>, value: nat, pos: nat): (nat, nat) {
    if At(toks, pos, lx.thousand) && 1 <= value <= 999 then
      var (v, p) := WithHundreds(lx, toks, value * 1000, pos + 1); WithRest(lx, toks, v, p)
    else if At(toks, pos, lx.hundred) && 1 <= value <= 99 then
      var (v, p) := WithHundreds(lx, toks, value * 100, pos + 1); WithRest(lx, toks, v, p)
    else (value, pos)
  }

  /** One number expression starting at i. */
  function NumberAt(lx: Lexicon, toks: seq<string>, i: nat): Option<Span> {
    var pos := if At(toks, i, lx.article) && (At(toks, i + 1, lx.hundred) || At(toks, i + 1, lx.thousand)) then i + 1
               else i;
    var head := BelowHundred(lx, toks, pos);
    if head.Some? then
      var (v, p) := Scaled(lx, toks, head.value.value, head.value.end); Some(Span(v, i, p))
    else if At(toks, pos, lx.hundred) || At(toks, pos, lx.thousand) then
      var (v, p) := Scaled(lx, toks, 1, pos); Some(Span(v, i, p))
    else None
  }

  // ---------------------------------------------------------------------------
  // The scan
  // ---------------------------------------------------------------------------

  lemma BelowHundredAdvances(lx: Lexicon, toks: seq<string>, i: nat)
    ensures BelowHundred(lx, toks, i).Some? ==> i < BelowHundred(lx, toks, i).value.end <= |toks|
  {
    RunIsDigits(lx, toks, i);
    if i < RunEnd(lx, toks, i) { assert DigitWord(lx, toks, RunEnd(lx, toks, i) - 1); }
  }

  /** A scale word is not part of a smaller number, so the hundreds read end right before theirs. */
  lemma HundredsEndAtTheirScale(lx: Lexicon, toks: seq<string>, pos: nat)
    requires Sane(lx) && At(toks, pos + 1, lx.hundred) && BelowHundred(lx, toks, pos).Some?
    ensures BelowHundred(lx, toks, pos).value.end == pos + 1
  {
    RunIsDigits(lx, toks, pos);
    assert !DigitWord(lx, toks, pos + 1);
  }

  lemma ScaledAdvances(lx: Lexicon, toks: seq<string>, value: nat, pos: nat)
    requires Sane(lx) && pos <= |toks|
    ensures pos <= Scaled(lx, toks, value, pos).1 <= |toks|
    ensures Scaled(lx, toks, value, pos).1 == pos ==>
            !(At(toks, pos, lx.thousand) && value == 1) && !(At(toks, pos, lx.hundred) && value == 1)
  {
    var v := if At(toks, pos, lx.thousand) then value * 1000 else value * 100;
    if At(toks, pos + 2, lx.hundred) && BelowHundred(lx, toks, pos + 1).Some? {
      HundredsEndAtTheirScale(lx, toks, pos + 1);
    }
    var p := WithHundreds(lx, toks, v, pos + 1).1;
    BelowHundredAdvances(lx, toks, p);
    BelowHundredAdvances(lx, toks, p + 1);
    hide BelowHundred;
  }

  /** A number read at i ends after i, within the text. */
  lemma NumberAdvances(lx: Lexicon, toks: seq<string>, i: nat)
    requires Sane(lx)
    ensures var r := NumberAt(lx, toks, i); r.Some? ==> r.value.start == i && i < r.value.end <= |toks|
  {
    var pos := if At(toks, i, lx.article) && (At(toks, i + 1, lx.hundred) || At(toks, i + 1, lx.thousand)) then i + 1
               else i;
    BelowHundredAdvances(lx, toks, pos);
    var head := BelowHundred(lx, toks, pos);
    if head.Some? { ScaledAdvances(lx, toks, head.value.value, head.value.end); }
    else if At(toks, pos, lx.hundred) || At(toks, pos, lx.thousand) { ScaledAdvances(lx, toks, 1, pos); }
    hide BelowHundred, Scaled;
  }

  /** The spans the scan collects from i on. */
  function Spans(lx: Lexicon, toks: seq<string>, i: nat): seq<Span>
    decreases |toks| - i
  {
    if i >= |toks| then []
    else
      var span := NumberAt(lx, toks, i);
      if span.None? || !(i < span.value.end) then Spans(lx, toks, i + 1)
      else [span.value] + Spans(lx, toks, span.value.end)
  }

  /** Non-empty spans from lo to hi, each starting where the one before ended or later. */
  ghost predicate LeftToRight(s: seq<Span>, lo: nat, hi: nat) {
    s == [] || (lo <= s[0].start < s[0].end <= hi && LeftToRight(s[1..], s[0].end, hi))
  }

  lemma LowerStart(s: seq<Span>, lo: nat, lo': nat, hi: nat)
    requires LeftToRight(s, lo, hi) && lo' <= lo
    ensures LeftToRight(s, lo', hi)
  {
  }

  /** The scan goes over disjoint spans from left to right. */
  lemma {:induction false} SpansAreDisjoint(lx: Lexicon, toks: seq<string>, i: nat)
    requires Sane(lx)
    ensures LeftToRight(Spans(lx, toks, i), i, |toks|)
    decreases |toks| - i
  {
    if i < |toks| {
      NumberAdvances(lx, toks, i);
      var span := NumberAt(lx, toks, i);
      hide NumberAt;
      if span.None? {
        SpansAreDisjoint(lx, toks, i + 1);
        LowerStart(Spans(lx, toks, i + 1), i + 1, i, |toks|);
      } else {
        SpansAreDisjoint(lx, toks, span.value.end);
        var tail := Spans(lx, toks, span.value.end);
        assert ([span.value] + tail)[1..] == tail;
      }
    }
  }

  function Values(s: seq<Span>): set<nat> { set x | x in s :: x.value }

  method NumbersIn(lx: Lexicon, toks: seq<string>) returns (found: seq<nat>)
    requires Sane(lx)
    ensures forall n :: n in found <==> n in Values(Spans(lx, toks, 0))
    ensures forall k, l :: 0 <= k < l < |found| ==> found[k] != found[l]
  {
    hide Spans, NumberAt, Sane;
    found := [];
    var i := 0;
    ghost var done: seq<Span> := [];
    while i < |toks|
      invariant 0 <= i && done + Spans(lx, toks, i) == Spans(lx, toks, 0)
      invariant forall n :: n in found <==> n in Values(done)
      invariant forall k, l :: 0 <= k < l < |found| ==> found[k] != found[l]
      decreases |toks| - i
    {
      NumberAdvances(lx, toks, i);
      NextSpan(lx, toks, i);
      var span := NumberAt(lx, toks, i);
      if span.None? {
        i := i + 1;
      } else {
        JoinSpans(done, span.value, Spans(lx, toks, span.value.end));
        OneMoreValue(done, span.value);
        done := done + [span.value];
        if span.value.value !in found { found := found + [span.value.value]; }
        i := span.value.end;
      }
    }
    NoSpansLeft(lx, toks, i);
    assert done + [] == done;
  }

  lemma NextSpan(lx: Lexicon, toks: seq<string>, i: nat)
    requires i < |toks|
    ensures var span := NumberAt(lx, toks, i);
            && (span.None? ==> Spans(lx, toks, i) == Spans(lx, toks, i + 1))
            && (span.Some? && i < span.value.end ==>
                  Spans(lx, toks, i) == [span.value] + Spans(lx, toks, span.value.end))
  {
    hide NumberAt;
  }

  lemma NoSpansLeft(lx: Lexicon, toks: seq<string>, i: nat)
    requires i >= |toks|
    ensures Spans(lx, toks, i) == []
  {
  }

  lemma JoinSpans(done: seq<Span>, span: Span, rest: seq<Span>)
    ensures done + ([span] + rest) == done + [span] + rest
  {
  }

  lemma OneMoreValue(done: seq<Span>, span: Span)
    ensures Values(done + [span]) == Values(done) + {span.value}
  {
    assert span in done + [span];
    forall x | x in done ensures x in done + [span] { }
  }

  // ---------------------------------------------------------------------------
  // Spelled numbers
  // ---------------------------------------------------------------------------

  /** A number without scale words: a digit string, one word, English tens and a unit, or digits read out one by
      one. */
  datatype Small =
    | Numeral(tok: string) | Single(tok: string) | Compound(tens: string, unit: string) | ReadOut(words: seq<string>)

  function SmallTokens(s: Small): seq<string> {
    match s case Numeral(t) => [t] case Single(t) => [t] case Compound(t, u) => [t, u] case ReadOut(words) => words
  }

  predicate IsDigitWord(lx: Lexicon, tok: string) {
    tok in lx.numbers && !lx.numbers[tok].tens && lx.numbers[tok].value <= 9
  }

  /** The numeral whose digits the words are: five zero is 50. */
  function DigitsOf(lx: Lexicon, words: seq<string>): (s: string)
    requires forall k :: 0 <= k < |words| ==> IsDigitWord(lx, words[k])
    ensures |s| == |words| && forall k :: 0 <= k < |s| ==> '0' <= s[k] <= '9'
  {
    if words == [] then ""
    else
      assert IsDigitWord(lx, words[|words| - 1]);
      DigitsOf(lx, words[..|words| - 1]) + [(lx.numbers[words[|words| - 1]].value as char) + '0']
  }

  /** A run of digit words is worth the number whose numeral it is. */
  lemma {:induction false} RunIsItsNumeral(lx: Lexicon, toks: seq<string>, pos: nat, words: seq<string>)
    requires pos + |words| <= |toks| && forall k :: 0 <= k < |words| ==> toks[pos + k] == words[k]
    requires forall k :: 0 <= k < |words| ==> IsDigitWord(lx, words[k])
    ensures forall k :: pos <= k < pos + |words| ==> DigitWord(lx, toks, k)
    ensures RunValue(lx, toks, pos, pos + |words|) == ParseInt(DigitsOf(lx, words))
    decreases |words|
  {
    forall k | pos <= k < pos + |words| ensures DigitWord(lx, toks, k) { assert toks[k] == words[k - pos]; }
    if words != [] {
      var before := words[..|words| - 1];
      RunIsItsNumeral(lx, toks, pos, before);
      OneMoreDigit(lx, words);
      hide DigitsOf, ParseInt, DigitWord, IsDigitWord;
      assert toks[pos + |before|] == words[|before|];
    }
  }

  lemma OneMoreDigit(lx: Lexicon, words: seq<string>)
    requires words != [] && forall k :: 0 <= k < |words| ==> IsDigitWord(lx, words[k])
    ensures words[|words| - 1] in lx.numbers
    ensures ParseInt(DigitsOf(lx, words))
         == 10 * ParseInt(DigitsOf(lx, words[..|words| - 1])) + lx.numbers[words[|words| - 1]].value
  {
    var s := DigitsOf(lx, words);
    assert IsDigitWord(lx, words[|words| - 1]);
    assert s[..|s| - 1] == DigitsOf(lx, words[..|words| - 1]);
  }

  /** The run at pos reaches exactly as far as the digit words stand. */
  lemma {:induction false} RunReaches(lx: Lexicon, toks: seq<string>, pos: nat, end: nat)
    requires pos <= end && (forall k :: pos <= k < end ==> DigitWord(lx, toks, k)) && !DigitWord(lx, toks, end)
    ensures RunEnd(lx, toks, pos) == end
    decreases end - pos
  {
    if pos < end { RunReaches(lx, toks, pos + 1, end); }
  }

  ghost predicate Spells(lx: Lexicon, s: Small, value: nat) {
    match s
    case Numeral(t) => IsDigits(t) && value == ParseInt(t)
    case Single(t) => t in lx.numbers && value == lx.numbers[t].value
    case Compound(t, u) =>
      && t in lx.numbers && lx.numbers[t].tens
      && u in lx.numbers && lx.numbers[u].family == En && !lx.numbers[u].tens && 1 <= lx.numbers[u].value <= 9
      && value == lx.numbers[t].value + lx.numbers[u].value
    case ReadOut(words) =>
      && |words| >= 2 && (forall k :: 0 <= k < |words| ==> IsDigitWord(lx, words[k]))
      && value == ParseInt(DigitsOf(lx, words))
  }

  /** How many thousands or hundreds: the scale word alone, after an article, or after a number. */
  datatype Times = Bare | Article(word: string) | Count(n: Small)

  function TimesTokens(t: Times): seq<string> {
    match t case Bare => [] case Article(w) => [w] case Count(n) => SmallTokens(n)
  }

  ghost predicate Counts(lx: Lexicon, t: Times, value: nat) {
    match t
    case Bare => value == 1
    case Article(w) => w in lx.article && value == 1
    case Count(n) => Spells(lx, n, value)
  }

  /** [thousands] [hundreds] [and] [rest], with at least one part; the scale words and the "and" are given. Ten hundreds
      or more may stand for thousands. */
  datatype Spelling = Spelling(
    thousands: Option<(Times, string)>, hundreds: Option<(Times, string)>, conj: Option<string>, rest: Option<Small>)

  function PartTokens(part: Option<(Times, string)>): seq<string> {
    if part.None? then [] else TimesTokens(part.value.0) + [part.value.1]
  }

  function RestTokens(sp: Spelling): seq<string> {
    (if sp.conj.Some? then [sp.conj.value] else []) + (if sp.rest.Some? then SmallTokens(sp.rest.value) else [])
  }

  function Tokens(sp: Spelling): seq<string> { PartTokens(sp.thousands) + PartTokens(sp.hundreds) + RestTokens(sp) }

  /** A counted scale word worth a thousand or more: thousands, or ten hundreds or more. */
  ghost predicate Scales(lx: Lexicon, part: (Times, string), base: nat) {
    exists n :: Counts(lx, part.0, n) && ScaledBy(lx, part.1, n, base)
  }

  predicate ScaledBy(lx: Lexicon, scale: string, n: nat, base: nat) {
    || (scale in lx.thousand && 1 <= n <= 999 && base == n * 1000)
    || (scale in lx.hundred && 10 <= n <= 99 && base == n * 100)
  }

  /** base is what the thousands are worth, h the number of hundreds, r the rest. After thousands, or ten hundreds and
      more, hundreds are counted by a single word from one to nine; after any scale word the rest is below a hundred. */
  ghost predicate SpellsNumber(lx: Lexicon, sp: Spelling, base: nat, h: nat, r: nat) {
    && (sp.thousands.Some? || sp.hundreds.Some? || sp.rest.Some?)
    && (if sp.thousands.None? then base == 0 else Scales(lx, sp.thousands.value, base))
    && (if sp.hundreds.None? then h == 0
        else 1 <= h <= 99 && Counts(lx, sp.hundreds.value.0, h) && sp.hundreds.value.1 in lx.hundred &&
             (sp.thousands.Some? ==>
                h <= 9 && sp.hundreds.value.0.Count? && |SmallTokens(sp.hundreds.value.0.n)| == 1))
    && (sp.conj.Some? ==> sp.conj.value in lx.conj && sp.rest.Some? && (sp.thousands.Some? || sp.hundreds.Some?))
    && (if sp.rest.None? then r == 0
        else Spells(lx, sp.rest.value, r) && (sp.thousands.Some? || sp.hundreds.Some? ==> 1 <= r <= 99))
  }

  /** A word that is neither a number, a scale, an "and" nor an article. */
  ghost predicate Neutral(lx: Lexicon, tok: string) {
    !IsDigits(tok) && tok !in lx.numbers && tok !in lx.hundred && tok !in lx.thousand && tok !in lx.conj
      && tok !in lx.article
  }

  /** `part` stands in toks at pos. */
  ghost predicate StandsAt(toks: seq<string>, pos: nat, part: seq<string>) {
    pos + |part| <= |toks| && toks[pos..pos + |part|] == part
  }

  lemma StandsIn(toks: seq<string>, pos: nat, a: seq<string>, b: seq<string>)
    requires StandsAt(toks, pos, a + b)
    ensures StandsAt(toks, pos, a) && StandsAt(toks, pos + |a|, b)
  {
    assert (a + b)[..|a|] == a && (a + b)[|a|..] == b;
    assert toks[pos..pos + |a|] == toks[pos..pos + |a + b|][..|a|];
    assert toks[pos + |a|..pos + |a| + |b|] == toks[pos..pos + |a + b|][|a|..];
  }

  /** What follows a small number must not be a number word, or it would be read as part of it. */
  ghost predicate NoNumberAt(lx: Lexicon, toks: seq<string>, pos: nat) {
    pos < |toks| ==> toks[pos] !in lx.numbers && !IsDigits(toks[pos])
  }

  lemma ReadSmall(lx: Lexicon, toks: seq<string>, pos: nat, s: Small, value: nat)
    requires Sane(lx) && Spells(lx, s, value) && StandsAt(toks, pos, SmallTokens(s))
    requires NoNumberAt(lx, toks, pos + |SmallTokens(s)|)
    ensures BelowHundred(lx, toks, pos) == Some(Span(value, pos, pos + |SmallTokens(s)|))
  {
    FirstToken(toks, pos, SmallTokens(s));
    match s {
      case Numeral(_) =>
      case Single(_) => ReadSingle(lx, toks, pos);
      case Compound(_, u) => ReadCompound(lx, toks, pos, u);
      case ReadOut(words) => ReadRun(lx, toks, pos, words);
    }
    hide BelowHundred, StandsAt, DigitsOf, NoNumberAt;
  }

  lemma ReadSingle(lx: Lexicon, toks: seq<string>, pos: nat)
    requires Sane(lx) && pos < |toks| && toks[pos] in lx.numbers && NoNumberAt(lx, toks, pos + 1)
    ensures BelowHundred(lx, toks, pos) == Some(Span(lx.numbers[toks[pos]].value, pos, pos + 1))
  {
    assert !DigitWord(lx, toks, pos + 1);
    assert RunEnd(lx, toks, pos) <= pos + 1;
    assert !IsDigits(toks[pos]);
    hide IsDigits, RunValue, RunEnd;
  }

  lemma ReadCompound(lx: Lexicon, toks: seq<string>, pos: nat, unit: string)
    requires Sane(lx) && pos < |toks| && StandsAt(toks, pos, [toks[pos], unit])
    requires toks[pos] in lx.numbers && lx.numbers[toks[pos]].tens
    requires unit in lx.numbers && lx.numbers[unit].family == En && !lx.numbers[unit].tens
             && 1 <= lx.numbers[unit].value <= 9
    ensures BelowHundred(lx, toks, pos)
         == Some(Span(lx.numbers[toks[pos]].value + lx.numbers[unit].value, pos, pos + 2))
  {
    assert toks[pos + 1] == toks[pos..pos + 2][1] == unit;
    assert !DigitWord(lx, toks, pos) && RunEnd(lx, toks, pos) == pos;
    assert !IsDigits(toks[pos]);
    hide IsDigits, RunValue, RunEnd;
  }

  lemma ReadRun(lx: Lexicon, toks: seq<string>, pos: nat, words: seq<string>)
    requires Sane(lx) && |words| >= 2 && (forall k :: 0 <= k < |words| ==> IsDigitWord(lx, words[k]))
    requires StandsAt(toks, pos, words) && NoNumberAt(lx, toks, pos + |words|)
    ensures BelowHundred(lx, toks, pos) == Some(Span(ParseInt(DigitsOf(lx, words)), pos, pos + |words|))
  {
    var end := pos + |words|;
    forall k | 0 <= k < |words| ensures toks[pos + k] == words[k] { assert toks[pos..end][k] == toks[pos + k]; }
    RunIsItsNumeral(lx, toks, pos, words);
    RunReaches(lx, toks, pos, end);
    RunIsDigits(lx, toks, pos);
    assert toks[pos] == words[0] && !IsDigits(words[0]);
  }

  lemma NothingSmallAt(lx: Lexicon, toks: seq<string>, pos: nat)
    requires NoNumberAt(lx, toks, pos)
    ensures BelowHundred(lx, toks, pos) == None
  {
    assert !DigitWord(lx, toks, pos) && RunEnd(lx, toks, pos) == pos;
  }

  /** Where a word of a given role stands, no other role matches. */
  lemma RolesExclude(lx: Lexicon, toks: seq<string>, pos: nat)
    requires Sane(lx)
    ensures At(toks, pos, lx.hundred) ==>
              NoNumberAt(lx, toks, pos) && !At(toks, pos, lx.thousand) && !At(toks, pos, lx.conj)
                && !At(toks, pos, lx.article)
    ensures At(toks, pos, lx.thousand) ==>
            NoNumberAt(lx, toks, pos) && !At(toks, pos, lx.conj) && !At(toks, pos, lx.article)
    ensures At(toks, pos, lx.conj) ==> NoNumberAt(lx, toks, pos) && !At(toks, pos, lx.article)
    ensures At(toks, pos, lx.article) ==> NoNumberAt(lx, toks, pos)
    ensures !NoNumberAt(lx, toks, pos) ==>
              !At(toks, pos, lx.hundred) && !At(toks, pos, lx.thousand) && !At(toks, pos, lx.conj)
                && !At(toks, pos, lx.article)
  {
  }

  ghost predicate NeutralFrom(lx: Lexicon, toks: seq<string>, pos: nat) {
    forall k :: pos <= k < |toks| ==> Neutral(lx, toks[k])
  }

  lemma FirstToken(toks: seq<string>, pos: nat, part: seq<string>)
    requires StandsAt(toks, pos, part) && part != []
    ensures toks[pos] == part[0]
  {
    assert toks[pos] == toks[pos..pos + |part|][0];
  }

  /** The first word of a small number is a number word or a numeral. */
  lemma SmallStarts(lx: Lexicon, toks: seq<string>, pos: nat, s: Small, value: nat)
    requires Sane(lx) && Spells(lx, s, value) && StandsAt(toks, pos, SmallTokens(s))
    ensures !NoNumberAt(lx, toks, pos)
    ensures |SmallTokens(s)| > 1 ==> !At(toks, pos + 1, lx.hundred)
  {
    FirstToken(toks, pos, SmallTokens(s));
    if |SmallTokens(s)| > 1 { assert toks[pos + 1] == toks[pos..pos + |SmallTokens(s)|][1]; }
  }

  lemma NeutralEnds(lx: Lexicon, toks: seq<string>, pos: nat)
    requires NeutralFrom(lx, toks, pos)
    ensures NoNumberAt(lx, toks, pos) && !At(toks, pos, lx.conj)
    ensures !At(toks, pos, lx.hundred) && !At(toks, pos, lx.thousand) && !At(toks, pos, lx.article)
    ensures !At(toks, pos + 1, lx.hundred)
  {
  }

  /** The end of a spelling: the rest is read, and nothing in it looks like hundreds. */
  lemma ReadRest(lx: Lexicon, toks: seq<string>, pos: nat, sp: Spelling, r: nat, value: nat)
    requires Sane(lx) && StandsAt(toks, pos, RestTokens(sp)) && NeutralFrom(lx, toks, pos + |RestTokens(sp)|)
    requires sp.conj.Some? ==> sp.conj.value in lx.conj && sp.rest.Some?
    requires if sp.rest.None? then r == 0 else 1 <= r <= 99 && Spells(lx, sp.rest.value, r)
    ensures WithRest(lx, toks, value, pos) == (value + r, pos + |RestTokens(sp)|)
    ensures !At(toks, pos + 1, lx.hundred)
  {
    hide *;
    NeutralEnds(lx, toks, pos + |RestTokens(sp)|);
    if sp.rest.None? {
      NoRestTokens(sp);
      NothingSmallAt(lx, toks, pos);
      WithoutRest(lx, toks, value, pos);
    } else if sp.conj.Some? {
      ConjoinedRest(lx, toks, pos, sp, r, value);
    } else {
      OnlyRestTokens(sp);
      PlainRest(lx, toks, pos, sp.rest.value, r, value);
    }
  }

  lemma NoRestTokens(sp: Spelling)
    ensures sp.rest.None? && sp.conj.None? ==> RestTokens(sp) == []
  {
    hide SmallTokens;
  }

  lemma OnlyRestTokens(sp: Spelling)
    ensures sp.rest.Some? && sp.conj.None? ==> RestTokens(sp) == SmallTokens(sp.rest.value)
  {
    hide SmallTokens;
  }

  lemma ConjoinedTokens(sp: Spelling)
    ensures sp.rest.Some? && sp.conj.Some? ==> RestTokens(sp) == [sp.conj.value] + SmallTokens(sp.rest.value)
  {
    hide SmallTokens;
  }

  lemma WithoutRest(lx: Lexicon, toks: seq<string>, value: nat, pos: nat)
    requires !At(toks, pos, lx.conj) && BelowHundred(lx, toks, pos) == None
    ensures WithRest(lx, toks, value, pos) == (value, pos)
  {
    hide BelowHundred, At;
  }

  lemma WithSomeRest(lx: Lexicon, toks: seq<string>, value: nat, pos: nat, rest: Span)
    requires BelowHundred(lx, toks, if At(toks, pos, lx.conj) then pos + 1 else pos) == Some(rest)
    requires 1 <= rest.value <= 99
    ensures WithRest(lx, toks, value, pos) == (value + rest.value, rest.end)
  {
    hide BelowHundred, At;
  }

  lemma PlainRest(lx: Lexicon, toks: seq<string>, pos: nat, rest: Small, r: nat, value: nat)
    requires Sane(lx) && StandsAt(toks, pos, SmallTokens(rest)) && 1 <= r <= 99 && Spells(lx, rest, r)
    requires NoNumberAt(lx, toks, pos + |SmallTokens(rest)|) && !At(toks, pos + |SmallTokens(rest)|, lx.hundred)
    ensures WithRest(lx, toks, value, pos) == (value + r, pos + |SmallTokens(rest)|)
    ensures !At(toks, pos + 1, lx.hundred)
  {
    hide *;
    ReadSmall(lx, toks, pos, rest, r);
    SmallStarts(lx, toks, pos, rest, r);
    RolesExclude(lx, toks, pos);
    WithSomeRest(lx, toks, value, pos, Span(r, pos, pos + |SmallTokens(rest)|));
    if |SmallTokens(rest)| == 1 { assert pos + |SmallTokens(rest)| == pos + 1; }
  }

  lemma ConjoinedRest(lx: Lexicon, toks: seq<string>, pos: nat, sp: Spelling, r: nat, value: nat)
    requires Sane(lx) && StandsAt(toks, pos, RestTokens(sp)) && NoNumberAt(lx, toks, pos + |RestTokens(sp)|)
    requires sp.conj.Some? && sp.conj.value in lx.conj && sp.rest.Some?
    requires 1 <= r <= 99 && Spells(lx, sp.rest.value, r)
    ensures WithRest(lx, toks, value, pos) == (value + r, pos + |RestTokens(sp)|)
    ensures !At(toks, pos + 1, lx.hundred)
  {
    hide *;
    ConjoinedTokens(sp);
    var small := SmallTokens(sp.rest.value);
    StandsIn(toks, pos, [sp.conj.value], small);
    ConjStands(toks, pos, sp.conj.value, lx.conj);
    ReadSmall(lx, toks, pos + 1, sp.rest.value, r);
    SmallStarts(lx, toks, pos + 1, sp.rest.value, r);
    RolesExclude(lx, toks, pos + 1);
    WithSomeRest(lx, toks, value, pos, Span(r, pos + 1, pos + 1 + |small|));
  }

  lemma ConjStands(toks: seq<string>, pos: nat, tok: string, words: set<string>)
    requires StandsAt(toks, pos, [tok]) && tok in words
    ensures At(toks, pos, words)
  {
    FirstToken(toks, pos, [tok]);
  }

  lemma PartStands(toks: seq<string>, pos: nat, part: (Times, string), tail: seq<string>)
    requires StandsAt(toks, pos, PartTokens(Some(part)) + tail)
    ensures StandsAt(toks, pos, TimesTokens(part.0) + [part.1])
    ensures StandsAt(toks, pos + |TimesTokens(part.0)| + 1, tail)
    ensures |PartTokens(Some(part)) + tail| == |TimesTokens(part.0)| + 1 + |tail|
  {
    hide StandsAt;
    StandsIn(toks, pos, PartTokens(Some(part)), tail);
  }

  lemma CountedHundreds(lx: Lexicon, sp: Spelling, base: nat, h: nat, r: nat)
    requires SpellsNumber(lx, sp, base, h, r) && sp.thousands.Some? && sp.hundreds.Some?
    ensures sp.hundreds.value.0.Count? && Spells(lx, sp.hundreds.value.0.n, h) && 1 <= h <= 9
            && sp.hundreds.value.1 in lx.hundred
    ensures |SmallTokens(sp.hundreds.value.0.n)| == 1
            && TimesTokens(sp.hundreds.value.0) == SmallTokens(sp.hundreds.value.0.n)
  {
  }

  lemma RestIsSpelled(lx: Lexicon, sp: Spelling, base: nat, h: nat, r: nat)
    requires SpellsNumber(lx, sp, base, h, r) && (sp.thousands.Some? || sp.hundreds.Some?)
    ensures sp.conj.Some? ==> sp.conj.value in lx.conj && sp.rest.Some?
    ensures if sp.rest.None? then r == 0 else 1 <= r <= 99 && Spells(lx, sp.rest.value, r)
    ensures sp.hundreds.None? ==> h == 0
  {
    hide Counts, Spells, Scales;
  }

  lemma NoPart(sp: Spelling)
    requires sp.hundreds.None?
    ensures PartTokens(sp.hundreds) + RestTokens(sp) == RestTokens(sp)
  {
    hide RestTokens;
  }

  lemma NoHundreds(lx: Lexicon, toks: seq<string>, value: nat, pos: nat)
    requires !At(toks, pos + 1, lx.hundred)
    ensures WithHundreds(lx, toks, value, pos) == (value, pos)
  {
  }

  /** What follows the thousands: hundreds counted by one word, then the rest; or the rest alone. */
  lemma ReadAfterThousands(lx: Lexicon, toks: seq<string>, pos: nat, sp: Spelling, base: nat, h: nat, r: nat)
    requires Sane(lx) && SpellsNumber(lx, sp, base, h, r) && sp.thousands.Some? && base >= 1000
    requires StandsAt(toks, pos, PartTokens(sp.hundreds) + RestTokens(sp))
    requires NeutralFrom(lx, toks, pos + |PartTokens(sp.hundreds) + RestTokens(sp)|)
    ensures var (v, p) := WithHundreds(lx, toks, base, pos);
            WithRest(lx, toks, v, p) == (base + h * 100 + r, pos + |PartTokens(sp.hundreds) + RestTokens(sp)|)
  {
    hide *;
    RestIsSpelled(lx, sp, base, h, r);
    if sp.hundreds.None? {
      NoPart(sp);
      ReadRest(lx, toks, pos, sp, r, base);
      NoHundreds(lx, toks, base, pos);
    } else {
      var part := sp.hundreds.value;
      assert sp.hundreds == Some(part);
      CountedHundreds(lx, sp, base, h, r);
      PartStands(toks, pos, part, RestTokens(sp));
      ReadHundreds(lx, toks, pos, part.0.n, part.1, h, base);
      ReadRest(lx, toks, pos + 2, sp, r, base + h * 100);
    }
  }

  lemma ReadHundreds(lx: Lexicon, toks: seq<string>, pos: nat, n: Small, scale: string, h: nat, value: nat)
    requires Sane(lx) && Spells(lx, n, h) && 1 <= h <= 9 && |SmallTokens(n)| == 1 && scale in lx.hundred
             && value >= 1000
    requires StandsAt(toks, pos, SmallTokens(n) + [scale])
    ensures WithHundreds(lx, toks, value, pos) == (value + h * 100, pos + 2)
  {
    StandsIn(toks, pos, SmallTokens(n), [scale]);
    FirstToken(toks, pos + 1, [scale]);
    RolesExclude(lx, toks, pos + 1);
    ReadSmall(lx, toks, pos, n, h);
    hide BelowHundred, Spells, NoNumberAt, Sane, StandsAt;
  }

  lemma FirstAfter(toks: seq<string>, i: nat, part: seq<string>, tok: string)
    requires StandsAt(toks, i, part + [tok])
    ensures i + |part| < |toks| && toks[i + |part|] == tok
  {
    StandsIn(toks, i, part, [tok]);
    FirstToken(toks, i + |part|, [tok]);
  }

  lemma ScaledByHundred(lx: Lexicon, toks: seq<string>, value: nat, pos: nat)
    requires At(toks, pos, lx.hundred) && !At(toks, pos, lx.thousand) && 1 <= value <= 99
             && !At(toks, pos + 2, lx.hundred)
    ensures Scaled(lx, toks, value, pos) == WithRest(lx, toks, value * 100, pos + 1)
  {
  }

  /** A counted scale word at the head of a number leads straight to the scaling rules. */
  lemma ReadHead(lx: Lexicon, toks: seq<string>, i: nat, times: Times, scale: string, n: nat)
    requires Sane(lx) && Counts(lx, times, n) && (scale in lx.hundred || scale in lx.thousand)
    requires StandsAt(toks, i, TimesTokens(times) + [scale])
    ensures var (v, p) := Scaled(lx, toks, n, i + |TimesTokens(times)|);
            NumberAt(lx, toks, i) == Some(Span(v, i, p))
    ensures i + |TimesTokens(times)| < |toks| && toks[i + |TimesTokens(times)|] == scale
  {
    hide *;
    var at := i + |TimesTokens(times)|;
    StandsIn(toks, i, TimesTokens(times), [scale]);
    FirstToken(toks, at, [scale]);
    ScaleStands(lx, toks, at, scale);
    RolesExclude(lx, toks, at);
    RolesExclude(lx, toks, i);
    match times {
      case Bare =>
        BareTokens(lx, n);
        NothingSmallAt(lx, toks, i);
        BareHead(lx, toks, i);
      case Article(w) =>
        ArticleTokens(lx, w, n);
        ConjStands(toks, i, w, lx.article);
        NothingSmallAt(lx, toks, at);
        ArticleHead(lx, toks, i);
      case Count(m) =>
        CountTokens(lx, m, n);
        ReadSmall(lx, toks, i, m, n);
        SmallStarts(lx, toks, i, m, n);
        CountedHead(lx, toks, i, n, at);
    }
  }

  lemma ScaleStands(lx: Lexicon, toks: seq<string>, at: nat, scale: string)
    requires at < |toks| && toks[at] == scale && (scale in lx.hundred || scale in lx.thousand)
    ensures At(toks, at, lx.hundred) || At(toks, at, lx.thousand)
  {
  }

  lemma BareTokens(lx: Lexicon, n: nat)
    ensures TimesTokens(Bare) == [] && (Counts(lx, Bare, n) ==> n == 1)
  {
  }

  lemma ArticleTokens(lx: Lexicon, w: string, n: nat)
    ensures TimesTokens(Article(w)) == [w] && (Counts(lx, Article(w), n) ==> n == 1 && w in lx.article)
  {
  }

  lemma CountTokens(lx: Lexicon, m: Small, n: nat)
    ensures TimesTokens(Count(m)) == SmallTokens(m) && (Counts(lx, Count(m), n) ==> Spells(lx, m, n))
  {
    hide SmallTokens, Spells;
  }

  lemma BareHead(lx: Lexicon, toks: seq<string>, i: nat)
    requires At(toks, i, lx.hundred) || At(toks, i, lx.thousand)
    requires !At(toks, i, lx.article) && BelowHundred(lx, toks, i) == None
    ensures var (v, p) := Scaled(lx, toks, 1, i); NumberAt(lx, toks, i) == Some(Span(v, i, p))
  {
    hide BelowHundred, Scaled, At;
  }

  lemma ArticleHead(lx: Lexicon, toks: seq<string>, i: nat)
    requires At(toks, i + 1, lx.hundred) || At(toks, i + 1, lx.thousand)
    requires At(toks, i, lx.article) && BelowHundred(lx, toks, i + 1) == None
    ensures var (v, p) := Scaled(lx, toks, 1, i + 1); NumberAt(lx, toks, i) == Some(Span(v, i, p))
  {
    hide BelowHundred, Scaled, At;
  }

  lemma CountedHead(lx: Lexicon, toks: seq<string>, i: nat, n: nat, end: nat)
    requires !At(toks, i, lx.article) && BelowHundred(lx, toks, i) == Some(Span(n, i, end))
    ensures var (v, p) := Scaled(lx, toks, n, end); NumberAt(lx, toks, i) == Some(Span(v, i, p))
  {
    hide BelowHundred, Scaled, At;
  }

  /** A spelled number is read as exactly its value, over exactly its words. */
  lemma SpelledNumberAt(lx: Lexicon, toks: seq<string>, i: nat, sp: Spelling, base: nat, h: nat, r: nat)
    requires Sane(lx) && SpellsNumber(lx, sp, base, h, r)
    requires StandsAt(toks, i, Tokens(sp)) && NeutralFrom(lx, toks, i + |Tokens(sp)|)
    ensures NumberAt(lx, toks, i) == Some(Span(base + h * 100 + r, i, i + |Tokens(sp)|))
  {
    hide *;
    AbsentParts(lx, sp, base, h, r);
    if sp.thousands.Some? {
      ThousandsFirst(lx, toks, i, sp, base, h, r);
    } else if sp.hundreds.Some? {
      HundredsFirst(lx, toks, i, sp, h, r);
    } else {
      RestOnly(lx, toks, i, sp, r);
    }
  }

  lemma AbsentParts(lx: Lexicon, sp: Spelling, base: nat, h: nat, r: nat)
    requires SpellsNumber(lx, sp, base, h, r)
    ensures (sp.thousands.None? ==> base == 0) && (sp.hundreds.None? ==> h == 0)
  {
    hide Counts, Spells, Scales;
  }

  lemma ThousandsPart(lx: Lexicon, toks: seq<string>, i: nat, sp: Spelling, base: nat, h: nat, r: nat)
    requires SpellsNumber(lx, sp, base, h, r) && sp.thousands.Some? && StandsAt(toks, i, Tokens(sp))
    ensures Scales(lx, sp.thousands.value, base) && base >= 1000
    ensures Tokens(sp) == PartTokens(sp.thousands) + (PartTokens(sp.hundreds) + RestTokens(sp))
  {
    hide Counts, Spells, PartTokens, RestTokens, StandsAt;
  }

  /** A scale word worth a thousand or more is followed up with hundreds. */
  lemma ScaledByBase(lx: Lexicon, toks: seq<string>, part: (Times, string), base: nat, pos: nat) returns (n: nat)
    requires Sane(lx) && Scales(lx, part, base) && pos < |toks| && toks[pos] == part.1
    ensures Counts(lx, part.0, n)
    ensures var (v, p) := WithHundreds(lx, toks, base, pos + 1); Scaled(lx, toks, n, pos) == WithRest(lx, toks, v, p)
    ensures part.1 in lx.thousand || part.1 in lx.hundred
  {
    n :| Counts(lx, part.0, n) && ScaledBy(lx, part.1, n, base);
    hide Counts, WithRest, WithHundreds;
  }

  lemma AtToken(toks: seq<string>, pos: nat, tok: string, words: set<string>)
    requires pos < |toks| && toks[pos] == tok && tok in words
    ensures At(toks, pos, words)
  {
  }

  lemma ThousandsFirst(lx: Lexicon, toks: seq<string>, i: nat, sp: Spelling, base: nat, h: nat, r: nat)
    requires Sane(lx) && SpellsNumber(lx, sp, base, h, r) && sp.thousands.Some?
    requires StandsAt(toks, i, Tokens(sp)) && NeutralFrom(lx, toks, i + |Tokens(sp)|)
    ensures NumberAt(lx, toks, i) == Some(Span(base + h * 100 + r, i, i + |Tokens(sp)|))
  {
    hide *;
    var part := sp.thousands.value;
    var tail := PartTokens(sp.hundreds) + RestTokens(sp);
    var at := i + |TimesTokens(part.0)|;
    ThousandsPart(lx, toks, i, sp, base, h, r);
    assert sp.thousands == Some(part);
    PartStands(toks, i, part, tail);
    FirstAfter(toks, i, TimesTokens(part.0), part.1);
    var n := ScaledByBase(lx, toks, part, base, at);
    ReadHead(lx, toks, i, part.0, part.1, n);
    ReadAfterThousands(lx, toks, at + 1, sp, base, h, r);
  }

  lemma HundredsPart(lx: Lexicon, sp: Spelling, h: nat, r: nat)
    requires SpellsNumber(lx, sp, 0, h, r) && sp.thousands.None? && sp.hundreds.Some?
    ensures 1 <= h <= 99 && Counts(lx, sp.hundreds.value.0, h) && sp.hundreds.value.1 in lx.hundred
    ensures Tokens(sp) == PartTokens(sp.hundreds) + RestTokens(sp)
  {
    hide Counts, Spells, RestTokens;
    assert [] + PartTokens(sp.hundreds) == PartTokens(sp.hundreds);
  }

  lemma HundredsFirst(lx: Lexicon, toks: seq<string>, i: nat, sp: Spelling, h: nat, r: nat)
    requires Sane(lx) && SpellsNumber(lx, sp, 0, h, r) && sp.thousands.None? && sp.hundreds.Some?
    requires StandsAt(toks, i, Tokens(sp)) && NeutralFrom(lx, toks, i + |Tokens(sp)|)
    ensures NumberAt(lx, toks, i) == Some(Span(h * 100 + r, i, i + |Tokens(sp)|))
  {
    hide *;
    var part := sp.hundreds.value;
    var at := i + |TimesTokens(part.0)|;
    HundredsPart(lx, sp, h, r);
    RestIsSpelled(lx, sp, 0, h, r);
    assert sp.hundreds == Some(part);
    PartStands(toks, i, part, RestTokens(sp));
    ReadHead(lx, toks, i, part.0, part.1, h);
    AtToken(toks, at, part.1, lx.hundred);
    RolesExclude(lx, toks, at);
    ReadRest(lx, toks, at + 1, sp, r, h * 100);
    ScaledByHundred(lx, toks, h, at);
  }

  lemma RestOnly(lx: Lexicon, toks: seq<string>, i: nat, sp: Spelling, r: nat)
    requires Sane(lx) && SpellsNumber(lx, sp, 0, 0, r) && sp.thousands.None? && sp.hundreds.None?
    requires StandsAt(toks, i, Tokens(sp)) && NeutralFrom(lx, toks, i + |Tokens(sp)|)
    ensures NumberAt(lx, toks, i) == Some(Span(r, i, i + |Tokens(sp)|))
  {
    assert Tokens(sp) == SmallTokens(sp.rest.value);
    NeutralEnds(lx, toks, i + |Tokens(sp)|);
    ReadSmall(lx, toks, i, sp.rest.value, r);
    SmallStarts(lx, toks, i, sp.rest.value, r);
    RolesExclude(lx, toks, i);
    hide BelowHundred, Sane, StandsAt, NeutralFrom, NoNumberAt, Spells;
  }

  // ---------------------------------------------------------------------------
  // Every number read is spelled
  // ---------------------------------------------------------------------------

  lemma StandsTogether(toks: seq<string>, pos: nat, a: seq<string>, b: seq<string>)
    requires StandsAt(toks, pos, a) && StandsAt(toks, pos + |a|, b)
    ensures StandsAt(toks, pos, a + b)
  {
    assert toks[pos..pos + |a|] + toks[pos + |a|..pos + |a| + |b|] == toks[pos..pos + |a + b|];
  }

  lemma WordStands(toks: seq<string>, pos: nat)
    requires pos < |toks|
    ensures StandsAt(toks, pos, [toks[pos]])
  {
  }

  /** A small number read is one its words spell. */
  lemma SmallIsSpelled(lx: Lexicon, toks: seq<string>, pos: nat) returns (s: Small)
    requires Sane(lx) && BelowHundred(lx, toks, pos).Some?
    ensures var span := BelowHundred(lx, toks, pos).value;
            Spells(lx, s, span.value) && StandsAt(toks, pos, SmallTokens(s)) && span.end == pos + |SmallTokens(s)|
  {
    if IsDigits(toks[pos]) {
      s := Numeral(toks[pos]);
    } else if DigitRun(lx, toks, pos).Some? {
      s := RunIsSpelled(lx, toks, pos);
    } else if BelowHundred(lx, toks, pos).value.end == pos + 2 {
      s := Compound(toks[pos], toks[pos + 1]);
    } else {
      s := Single(toks[pos]);
    }
  }

  lemma RunIsSpelled(lx: Lexicon, toks: seq<string>, pos: nat) returns (s: Small)
    requires DigitRun(lx, toks, pos).Some?
    ensures var span := DigitRun(lx, toks, pos).value;
            Spells(lx, s, span.value) && StandsAt(toks, pos, SmallTokens(s)) && span.end == pos + |SmallTokens(s)|
  {
    RunIsDigits(lx, toks, pos);
    var end := RunEnd(lx, toks, pos);
    assert DigitWord(lx, toks, end - 1);
    var words := toks[pos..end];
    forall k | 0 <= k < |words| ensures IsDigitWord(lx, words[k]) { assert DigitWord(lx, toks, pos + k); }
    RunIsItsNumeral(lx, toks, pos, words);
    s := ReadOut(words);
  }

  /** What a number consists of after its head: hundreds that were counted by one word, .. */
  lemma HundredsAreSpelled(lx: Lexicon, toks: seq<string>, value: nat, pos: nat)
    returns (hundreds: Option<(Times, string)>, h: nat)
    requires Sane(lx) && pos <= |toks|
    ensures WithHundreds(lx, toks, value, pos) == (value + h * 100, pos + |PartTokens(hundreds)|)
    ensures StandsAt(toks, pos, PartTokens(hundreds))
    ensures if hundreds.None? then h == 0
            else
              && 1 <= h <= 9 && hundreds.value.0.Count? && |SmallTokens(hundreds.value.0.n)| == 1 && value >= 1000
              && Spells(lx, hundreds.value.0.n, h) && hundreds.value.1 in lx.hundred
  {
    hide *;
    hundreds, h := None, 0;
    var read := BelowHundred(lx, toks, pos);
    if value >= 1000 && At(toks, pos + 1, lx.hundred) && read.Some? && 1 <= read.value.value <= 9 {
      var s := SmallIsSpelled(lx, toks, pos);
      HundredsEndAtTheirScale(lx, toks, pos);
      HundredIsThere(lx, toks, pos + 1);
      hundreds, h := Some((Count(s), toks[pos + 1])), read.value.value;
      CountStands(toks, pos, s);
      WithSomeHundreds(lx, toks, value, pos, read.value);
    } else {
      WithoutHundreds(lx, toks, value, pos);
      NothingStands(toks, pos);
      NoPartTokens();
    }
  }

  lemma HundredIsThere(lx: Lexicon, toks: seq<string>, pos: nat)
    requires At(toks, pos, lx.hundred)
    ensures pos < |toks| && toks[pos] in lx.hundred
  {
  }

  lemma WithSomeHundreds(lx: Lexicon, toks: seq<string>, value: nat, pos: nat, read: Span)
    requires value >= 1000 && At(toks, pos + 1, lx.hundred) && BelowHundred(lx, toks, pos) == Some(read)
    requires 1 <= read.value <= 9
    ensures WithHundreds(lx, toks, value, pos) == (value + read.value * 100, read.end + 1)
  {
    hide BelowHundred, At;
  }

  lemma WithoutHundreds(lx: Lexicon, toks: seq<string>, value: nat, pos: nat)
    requires var read := BelowHundred(lx, toks, pos);
             !(value >= 1000 && At(toks, pos + 1, lx.hundred) && read.Some? && 1 <= read.value.value <= 9)
    ensures WithHundreds(lx, toks, value, pos) == (value, pos)
  {
    hide BelowHundred, At;
  }

  lemma NoPartTokens()
    ensures PartTokens(None) == []
  {
  }

  lemma CountStands(toks: seq<string>, pos: nat, s: Small)
    requires StandsAt(toks, pos, SmallTokens(s)) && |SmallTokens(s)| == 1 && pos + 1 < |toks|
    ensures var part := Some((Count(s), toks[pos + 1]));
            StandsAt(toks, pos, PartTokens(part)) && |PartTokens(part)| == 2
  {
    hide SmallTokens;
    WordStands(toks, pos + 1);
    StandsTogether(toks, pos, SmallTokens(s), [toks[pos + 1]]);
  }

  /** .. and a rest below a hundred. */
  lemma RestIsRead(lx: Lexicon, toks: seq<string>, value: nat, pos: nat) returns (sp: Spelling, r: nat)
    requires Sane(lx) && pos <= |toks|
    ensures sp.thousands.None? && sp.hundreds.None?
    ensures WithRest(lx, toks, value, pos) == (value + r, pos + |RestTokens(sp)|) && StandsAt(toks, pos, RestTokens(sp))
    ensures sp.conj.Some? ==> sp.conj.value in lx.conj && sp.rest.Some?
    ensures if sp.rest.None? then r == 0 else Spells(lx, sp.rest.value, r) && 1 <= r <= 99
  {
    hide *;
    sp, r := Spelling(None, None, None, None), 0;
    var at := if At(toks, pos, lx.conj) then pos + 1 else pos;
    var read := BelowHundred(lx, toks, at);
    if read.Some? && 1 <= read.value.value <= 99 {
      var s := SmallIsSpelled(lx, toks, at);
      r := read.value.value;
      WithSomeRest(lx, toks, value, pos, read.value);
      if at > pos { ConjIsThere(lx, toks, pos); }
      sp := Spelling(None, None, if at == pos then None else Some(toks[pos]), Some(s));
      RestStands(toks, pos, at, sp, s);
    } else {
      WithNoRest(lx, toks, value, pos);
      NoRestTokens(sp);
      NothingStands(toks, pos);
    }
  }

  lemma ConjIsThere(lx: Lexicon, toks: seq<string>, pos: nat)
    requires At(toks, pos, lx.conj)
    ensures pos < |toks| && toks[pos] in lx.conj
  {
  }

  lemma NothingStands(toks: seq<string>, pos: nat)
    requires pos <= |toks|
    ensures StandsAt(toks, pos, [])
  {
  }

  lemma WithNoRest(lx: Lexicon, toks: seq<string>, value: nat, pos: nat)
    requires var read := BelowHundred(lx, toks, if At(toks, pos, lx.conj) then pos + 1 else pos);
             !(read.Some? && 1 <= read.value.value <= 99)
    ensures WithRest(lx, toks, value, pos) == (value, pos)
  {
    hide BelowHundred, At;
  }

  lemma RestStands(toks: seq<string>, pos: nat, at: nat, sp: Spelling, s: Small)
    requires pos <= at <= pos + 1 && pos <= |toks| && StandsAt(toks, at, SmallTokens(s))
    requires at == pos + 1 ==> pos < |toks|
    requires sp == Spelling(None, None, if at == pos then None else Some(toks[pos]), Some(s))
    ensures StandsAt(toks, pos, RestTokens(sp)) && pos + |RestTokens(sp)| == at + |SmallTokens(s)|
  {
    hide SmallTokens;
    if at == pos {
      assert RestTokens(sp) == SmallTokens(s);
    } else {
      WordStands(toks, pos);
      StandsTogether(toks, pos, [toks[pos]], SmallTokens(s));
    }
  }

  /** The head of a number that is scaled, and what scales it. */
  lemma HeadIsSpelled(lx: Lexicon, toks: seq<string>, i: nat) returns (times: Times, n: nat, at: nat)
    requires Sane(lx) && NumberAt(lx, toks, i).Some?
    ensures i <= at <= |toks|
    ensures var (v, p) := Scaled(lx, toks, n, at); NumberAt(lx, toks, i) == Some(Span(v, i, p))
    ensures Counts(lx, times, n) && StandsAt(toks, i, TimesTokens(times)) && at == i + |TimesTokens(times)|
    ensures !times.Count? ==> At(toks, at, lx.hundred) || At(toks, at, lx.thousand)
  {
    var pos := if At(toks, i, lx.article) && (At(toks, i + 1, lx.hundred) || At(toks, i + 1, lx.thousand)) then i + 1
               else i;
    RolesExclude(lx, toks, pos);
    if BelowHundred(lx, toks, pos).Some? {
      if pos == i + 1 { NothingSmallAt(lx, toks, pos); }
      var s := SmallIsSpelled(lx, toks, pos);
      times, n, at := Count(s), BelowHundred(lx, toks, pos).value.value, BelowHundred(lx, toks, pos).value.end;
      hide BelowHundred, Scaled, Spells, Sane;
    } else {
      hide BelowHundred, Scaled, Sane;
      at, n := pos, 1;
      times := if pos == i then Bare else Article(toks[i]);
    }
  }

  /** A number read is one its words spell, and it is worth what they spell: nothing is read into a text. */
  lemma ReadNumberIsSpelled(lx: Lexicon, toks: seq<string>, i: nat) returns (sp: Spelling, base: nat, h: nat, r: nat)
    requires Sane(lx) && NumberAt(lx, toks, i).Some?
    ensures SpellsNumber(lx, sp, base, h, r) && StandsAt(toks, i, Tokens(sp))
    ensures NumberAt(lx, toks, i) == Some(Span(base + h * 100 + r, i, i + |Tokens(sp)|))
  {
    hide *;
    var times, n, at := HeadIsSpelled(lx, toks, i);
    if Scalable(lx, toks, n, at) {
      ScalableIsInside(lx, toks, n, at);
      sp, base, h, r := ScaledIsSpelled(lx, toks, i, times, n, at);
    } else {
      NotScaled(lx, toks, n, at);
      NotScaledIsCounted(lx, toks, times, n, at);
      sp, base, h, r := Spelling(None, None, None, Some(times.n)), 0, 0, n;
      UnscaledIsSpelled(lx, times, n);
    }
  }

  /** The word at `at` scales n. */
  predicate Scalable(lx: Lexicon, toks: seq<string>, n: nat, at: nat) {
    (At(toks, at, lx.thousand) && 1 <= n <= 999) || (At(toks, at, lx.hundred) && 1 <= n <= 99)
  }

  lemma ScalableIsInside(lx: Lexicon, toks: seq<string>, n: nat, at: nat)
    requires Scalable(lx, toks, n, at)
    ensures at < |toks|
  {
  }

  lemma NotScaled(lx: Lexicon, toks: seq<string>, n: nat, at: nat)
    requires !Scalable(lx, toks, n, at)
    ensures Scaled(lx, toks, n, at) == (n, at)
  {
    hide At;
  }

  lemma NotScaledIsCounted(lx: Lexicon, toks: seq<string>, times: Times, n: nat, at: nat)
    requires !Scalable(lx, toks, n, at) && Counts(lx, times, n)
    requires !times.Count? ==> At(toks, at, lx.hundred) || At(toks, at, lx.thousand)
    ensures times.Count?
  {
    hide At;
  }

  lemma UnscaledIsSpelled(lx: Lexicon, times: Times, n: nat)
    requires times.Count? && Counts(lx, times, n)
    ensures var sp := Spelling(None, None, None, Some(times.n));
            SpellsNumber(lx, sp, 0, 0, n) && Tokens(sp) == TimesTokens(times)
  {
    hide Spells, SmallTokens;
    var sp := Spelling(None, None, None, Some(times.n));
    assert RestTokens(sp) == SmallTokens(times.n);
  }

  /** The number is n times a scale word, then perhaps hundreds, then perhaps a rest. */
  lemma ScaledIsSpelled(lx: Lexicon, toks: seq<string>, i: nat, times: Times, n: nat, at: nat)
    returns (sp: Spelling, base: nat, h: nat, r: nat)
    requires Sane(lx) && i <= at < |toks| && Counts(lx, times, n) && Scalable(lx, toks, n, at)
    requires StandsAt(toks, i, TimesTokens(times)) && at == i + |TimesTokens(times)|
    ensures SpellsNumber(lx, sp, base, h, r) && StandsAt(toks, i, Tokens(sp))
    ensures Scaled(lx, toks, n, at) == (base + h * 100 + r, i + |Tokens(sp)|)
  {
    hide *;
    var part := (times, toks[at]);
    var value := if At(toks, at, lx.thousand) && n <= 999 then n * 1000 else n * 100;
    var hundreds, h' := HundredsAreSpelled(lx, toks, value, at + 1);
    var next := at + 1 + |PartTokens(hundreds)|;
    PartStandsWithin(toks, at + 1, PartTokens(hundreds));
    var rest, r' := RestIsRead(lx, toks, value + h' * 100, next);
    ScaledStep(lx, toks, n, at, value, h', next);
    r := r';
    HeadStands(toks, i, times, at);
    if value >= 1000 {
      sp, base, h := Spelling(Some(part), hundreds, rest.conj, rest.rest), value, h';
      ThousandsAreSpelled(lx, toks, sp, rest, part, n, base, h, r, at);
    } else {
      assert hundreds.None?;
      sp, base, h := Spelling(None, Some(part), rest.conj, rest.rest), 0, n;
      HundredsOnlyAreSpelled(lx, toks, sp, rest, part, n, r, at, value);
    }
    TokensStand(toks, i, sp, rest, part, hundreds);
  }

  lemma PartStandsWithin(toks: seq<string>, pos: nat, part: seq<string>)
    requires StandsAt(toks, pos, part)
    ensures pos + |part| <= |toks|
  {
  }

  lemma HeadStands(toks: seq<string>, i: nat, times: Times, at: nat)
    requires at < |toks| && StandsAt(toks, i, TimesTokens(times)) && at == i + |TimesTokens(times)|
    ensures var part := Some((times, toks[at]));
            StandsAt(toks, i, PartTokens(part)) && |PartTokens(part)| == at + 1 - i
  {
    hide TimesTokens;
    WordStands(toks, at);
    StandsTogether(toks, i, TimesTokens(times), [toks[at]]);
  }

  lemma ScaledStep(lx: Lexicon, toks: seq<string>, n: nat, at: nat, value: nat, h: nat, next: nat)
    requires Sane(lx) && Scalable(lx, toks, n, at)
    requires value == if At(toks, at, lx.thousand) && n <= 999 then n * 1000 else n * 100
    requires WithHundreds(lx, toks, value, at + 1) == (value + h * 100, next)
    ensures Scaled(lx, toks, n, at) == WithRest(lx, toks, value + h * 100, next)
  {
    hide WithHundreds, WithRest, Sane, At;
  }

  lemma ThousandsAreSpelled(lx: Lexicon, toks: seq<string>, sp: Spelling, rest: Spelling, part: (Times, string), n: nat,
                            base: nat, h: nat, r: nat, at: nat)
    requires at < |toks| && part.1 == toks[at] && Counts(lx, part.0, n) && Scalable(lx, toks, n, at) && base >= 1000
    requires base == if At(toks, at, lx.thousand) && n <= 999 then n * 1000 else n * 100
    requires sp.thousands == Some(part) && sp.conj == rest.conj && sp.rest == rest.rest
    requires if sp.hundreds.None? then h == 0
             else
               && 1 <= h <= 9 && sp.hundreds.value.0.Count? && |SmallTokens(sp.hundreds.value.0.n)| == 1
               && Spells(lx, sp.hundreds.value.0.n, h) && sp.hundreds.value.1 in lx.hundred
    requires rest.conj.Some? ==> rest.conj.value in lx.conj && rest.rest.Some?
    requires if rest.rest.None? then r == 0 else Spells(lx, rest.rest.value, r) && 1 <= r <= 99
    ensures SpellsNumber(lx, sp, base, h, r)
  {
    hide Spells, SmallTokens;
    assert ScaledBy(lx, part.1, n, base);
    assert Scales(lx, part, base);
  }

  lemma HundredsOnlyAreSpelled(lx: Lexicon, toks: seq<string>, sp: Spelling, rest: Spelling, part: (Times, string),
                               n: nat, r: nat, at: nat, value: nat)
    requires at < |toks| && part.1 == toks[at] && Counts(lx, part.0, n) && Scalable(lx, toks, n, at)
    requires value == (if At(toks, at, lx.thousand) && n <= 999 then n * 1000 else n * 100) && value < 1000
    requires sp == Spelling(None, Some(part), rest.conj, rest.rest)
    requires rest.conj.Some? ==> rest.conj.value in lx.conj && rest.rest.Some?
    requires if rest.rest.None? then r == 0 else Spells(lx, rest.rest.value, r) && 1 <= r <= 99
    ensures SpellsNumber(lx, sp, 0, n, r) && value == n * 100
  {
    hide Spells, Counts;
  }

  lemma TokensStand(toks: seq<string>, i: nat, sp: Spelling, rest: Spelling, part: (Times, string),
                    hundreds: Option<(Times, string)>)
    requires sp == Spelling(Some(part), hundreds, rest.conj, rest.rest)
             || (hundreds.None? && sp == Spelling(None, Some(part), rest.conj, rest.rest))
    requires StandsAt(toks, i, PartTokens(Some(part)))
    requires StandsAt(toks, i + |PartTokens(Some(part))|, PartTokens(hundreds))
    requires StandsAt(toks, i + |PartTokens(Some(part))| + |PartTokens(hundreds)|, RestTokens(rest))
    ensures StandsAt(toks, i, Tokens(sp))
    ensures |Tokens(sp)| == |PartTokens(Some(part))| + |PartTokens(hundreds)| + |RestTokens(rest)|
  {
    var a, b, c := PartTokens(Some(part)), PartTokens(hundreds), RestTokens(rest);
    assert RestTokens(sp) == c;
    assert Tokens(sp) == a + b + c by { hide RestTokens, TimesTokens; assert [] + a == a && a + [] == a; }
    hide *;
    StandsTogether(toks, i, a, b);
    StandsTogether(toks, i, a + b, c);
  }

  // ---------------------------------------------------------------------------
  // Reading a whole text
  // ---------------------------------------------------------------------------

  lemma {:induction false} NeutralHasNoNumbers(lx: Lexicon, toks: seq<string>, i: nat)
    requires NeutralFrom(lx, toks, i)
    ensures Spans(lx, toks, i) == []
    decreases |toks| - i
  {
    hide Neutral, NumberAt;
    if i < |toks| {
      NeutralIsPassed(lx, toks, i);
      NeutralHasNoNumbers(lx, toks, i + 1);
      hide Spans;
    }
  }

  lemma {:induction false} NeutralIsSkipped(lx: Lexicon, toks: seq<string>, i: nat, to: nat)
    requires i <= to <= |toks| && forall k :: i <= k < to ==> Neutral(lx, toks[k])
    ensures Spans(lx, toks, i) == Spans(lx, toks, to)
    decreases |toks| - i
  {
    hide Neutral, Spans;
    if i < to {
      NeutralIsPassed(lx, toks, i);
      NeutralIsSkipped(lx, toks, i + 1, to);
    }
  }

  lemma NeutralIsPassed(lx: Lexicon, toks: seq<string>, i: nat)
    requires i < |toks| && Neutral(lx, toks[i])
    ensures Spans(lx, toks, i) == Spans(lx, toks, i + 1)
  {
    hide *;
    NeutralWord(lx, toks, i);
    NothingSmallAt(lx, toks, i);
    NoNumberThere(lx, toks, i);
    NextSpan(lx, toks, i);
  }

  lemma NoNumberThere(lx: Lexicon, toks: seq<string>, i: nat)
    requires BelowHundred(lx, toks, i) == None && !At(toks, i, lx.article)
    requires !At(toks, i, lx.hundred) && !At(toks, i, lx.thousand)
    ensures NumberAt(lx, toks, i) == None
  {
    hide BelowHundred, Scaled, At;
  }

  lemma NeutralWord(lx: Lexicon, toks: seq<string>, i: nat)
    requires i < |toks| && Neutral(lx, toks[i])
    ensures NoNumberAt(lx, toks, i) && !At(toks, i, lx.article)
    ensures !At(toks, i, lx.hundred) && !At(toks, i, lx.thousand)
  {
  }

  lemma NeutralAround(lx: Lexicon, before: seq<string>, mid: seq<string>, after: seq<string>)
    requires forall t :: t in before || t in after ==> Neutral(lx, t)
    ensures var toks := before + mid + after;
            && StandsAt(toks, |before|, mid) && NeutralFrom(lx, toks, |before| + |mid|)
            && forall k :: 0 <= k < |before| ==> Neutral(lx, toks[k])
  {
    hide Neutral;
    var toks, end := before + mid + after, |before| + |mid|;
    forall k | 0 <= k < |before| ensures Neutral(lx, toks[k]) { assert toks[k] == before[k] && before[k] in before; }
    forall k | end <= k < |toks| ensures Neutral(lx, toks[k]) {
      assert toks[k] == after[k - end] && after[k - end] in after;
    }
    assert toks[|before|..end] == mid;
  }

  /** Among any neutral words, a spelled number is the one number read. */
  lemma SpelledNumberIsRead(lx: Lexicon, before: seq<string>, sp: Spelling, after: seq<string>, base: nat, h: nat,
                            r: nat)
    requires Sane(lx) && SpellsNumber(lx, sp, base, h, r)
    requires forall t :: t in before || t in after ==> Neutral(lx, t)
    ensures Values(Spans(lx, before + Tokens(sp) + after, 0)) == {base + h * 100 + r}
  {
    var toks := before + Tokens(sp) + after;
    var i, end := |before|, |before| + |Tokens(sp)|;
    hide *;
    NeutralAround(lx, before, Tokens(sp), after);
    SpelledNumberAt(lx, toks, i, sp, base, h, r);
    NeutralIsSkipped(lx, toks, 0, i);
    NeutralHasNoNumbers(lx, toks, end);
    TokensNotEmpty(lx, sp, base, h, r);
    OnlySpan(lx, toks, i, Span(base + h * 100 + r, i, end));
  }

  lemma OnlySpan(lx: Lexicon, toks: seq<string>, i: nat, span: Span)
    requires i < |toks| && NumberAt(lx, toks, i) == Some(span) && i < span.end && Spans(lx, toks, span.end) == []
    ensures Values(Spans(lx, toks, i)) == {span.value}
  {
    hide NumberAt;
    assert Spans(lx, toks, i) == [span];
    assert span in [span];
  }

  lemma TokensNotEmpty(lx: Lexicon, sp: Spelling, base: nat, h: nat, r: nat)
    requires SpellsNumber(lx, sp, base, h, r)
    ensures |Tokens(sp)| > 0
  {
  }

  datatype Reading = Num(n: nat) | NoNumber | Conflict

  const MAX_AGE: nat := 1000

  function Agree(readings: seq<Reading>): Option<nat> {
    if Conflict in readings then None
    else
      var values := set x | x in readings && x.Num? :: x.n;
      if |values| == 1 then Some(Only(values)) else None
  }

  function Only(s: set<nat>): (n: nat)
    requires |s| == 1
    ensures s == {n}
  {
    var n :| n in s;
    assert |s - {n}| == 0;
    n
  }

  /** Readings agree on n exactly when none conflicts, one of them is n, and no other number is among them. */
  lemma AgreementMeansOneNumber(readings: seq<Reading>, n: nat)
    ensures Agree(readings) == Some(n) <==>
            Conflict !in readings && Num(n) in readings && forall m :: Num(m) in readings ==> m == n
  {
    var values := set x | x in readings && x.Num? :: x.n;
    assert forall m :: m in values <==> Num(m) in readings;
    if Num(n) in readings && (forall m :: Num(m) in readings ==> m == n) {
      assert values == {n};
    }
    if |values| == 1 { var m := Only(values); assert Num(m) in readings; }
  }

  method AgeReading(lx: Lexicon, toks: seq<string>) returns (r: Reading)
    requires Sane(lx)
    ensures r == ReadingOf(Values(Spans(lx, toks, 0)))
  {
    var numbers := NumbersIn(lx, toks);
    r := if |numbers| == 0 then NoNumber
         else if |numbers| > 1 then Conflict
         else if numbers[0] <= MAX_AGE then Num(numbers[0]) else Conflict;
    hide *;
    ReadingOfList(numbers, Values(Spans(lx, toks, 0)), r);
  }

  lemma ReadingOfList(numbers: seq<nat>, values: set<nat>, r: Reading)
    requires forall k, l :: 0 <= k < l < |numbers| ==> numbers[k] != numbers[l]
    requires forall n :: n in numbers <==> n in values
    requires r == if |numbers| == 0 then NoNumber
                  else if |numbers| > 1 then Conflict
                  else if numbers[0] <= MAX_AGE then Num(numbers[0]) else Conflict
    ensures r == ReadingOf(values)
  {
    SizeOf(numbers, values);
    if |numbers| == 1 { assert numbers[0] in values; }
  }

  function ReadingOf(values: set<nat>): Reading {
    if |values| == 0 then NoNumber
    else if |values| > 1 then Conflict
    else if Only(values) <= MAX_AGE then Num(Only(values)) else Conflict
  }

  lemma {:induction false} SizeOf(s: seq<nat>, values: set<nat>)
    requires (forall k, l :: 0 <= k < l < |s| ==> s[k] != s[l]) && forall n :: n in s <==> n in values
    ensures |s| == |values|
    decreases |s|
  {
    if s == [] {
      assert values == {};
    } else {
      assert s[0] in values;
      assert forall n :: n in s[1..] <==> n in values - {s[0]};
      SizeOf(s[1..], values - {s[0]});
    }
  }

  /** Reading the reply of the model, which is not held to the ambiguous-word rule. */
  method ReadAge(lx: Lexicon, toks: seq<string>) returns (age: Option<nat>)
    requires Sane(lx)
    ensures age == AgeOf(Values(Spans(lx, toks, 0)))
  {
    var reading := AgeReading(lx, toks);
    age := Agree([reading]);
  }

  function AgeOf(values: set<nat>): Option<nat> { Agree([ReadingOf(values)]) }

  /** A reply states an age exactly when one number is read in it and that number is at most 1000. */
  lemma OneNumberInRangeIsTheAge(values: set<nat>, n: nat)
    ensures AgeOf(values) == Some(n) <==> values == {n} && n <= 1000
  {
    AgreementMeansOneNumber([ReadingOf(values)], n);
    if values == {n} { assert Only(values) == n; }
  }

  /** An age from 1 to 1000 spelled among neutral words is read as that age. */
  lemma SpelledAgeIsRead(lx: Lexicon, before: seq<string>, sp: Spelling, after: seq<string>, base: nat, h: nat, r: nat)
    requires Sane(lx) && SpellsNumber(lx, sp, base, h, r) && base + h * 100 + r <= MAX_AGE
    requires forall t :: t in before || t in after ==> Neutral(lx, t)
    ensures AgeOf(Values(Spans(lx, before + Tokens(sp) + after, 0))) == Some(base + h * 100 + r)
  {
    SpelledNumberIsRead(lx, before, sp, after, base, h, r);
    var n := base + h * 100 + r;
    hide Spans, Values, Tokens, SpellsNumber, Sane;
    assert ReadingOf({n}) == Num(n);
    AgreementMeansOneNumber([Num(n)], n);
  }
}
