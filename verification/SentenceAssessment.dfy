/**
 Per-word fusion across speech engines and the pass/fail decision
 (src/literacy/literacy-lesson/sentence-assessment.ts).
 */
module SentenceAssessment {
  import opened Options
  import opened SentenceAlignment

  const READ_ERROR_BUDGET_MIN: nat := 1

  function Rank(s: Status): nat {
    match s case Correct => 0 case Close => 1 case Transposed => 2 case Substituted => 3 case Omitted => 4
  }

  /** The source's ceil(0.1 * wordCount), never below one error. */
  function ReadErrorBudget(wordCount: nat): nat {
    var tenth := (wordCount + 9) / 10;
    if READ_ERROR_BUDGET_MIN > tenth then READ_ERROR_BUDGET_MIN else tenth
  }

  predicate FlawedWordBudgetOk(flawed: nat, wordCount: nat) { flawed * 10 <= 3 * wordCount }

  /** Words per minute, to one decimal; None without a usable duration. */
  function ReadingWpm(wordCount: nat, durationMs: Option<real>): Option<real> {
    if wordCount == 0 || durationMs == None || durationMs.value <= 0.0 then None
    else Some(((wordCount as real / (durationMs.value / 60000.0) * 10.0 + 0.5).Floor as real) / 10.0)
  }

  /** The budget is the least number of errors, one or more, that covers a tenth of the words. */
  lemma BudgetIsTheLeast(wordCount: nat, budget: nat)
    ensures budget >= ReadErrorBudget(wordCount) <==> budget >= 1 && 10 * budget >= wordCount
  {
  }

  /** At most three words in ten may be flawed. */
  lemma FlawedIsAtMostThreeTenths(flawed: nat, wordCount: nat)
    ensures FlawedWordBudgetOk(flawed, wordCount) <==> flawed as real <= 0.3 * wordCount as real
  {
  }

  /** The printed speed is the exact one to within a twentieth of a word per minute. */
  lemma WpmIsNearest(wordCount: nat, durationMs: real)
    requires wordCount > 0 && durationMs > 0.0
    ensures var wpm := ReadingWpm(wordCount, Some(durationMs));
            var exact := wordCount as real / (durationMs / 60000.0);
            wpm.Some? && -0.05 <= wpm.value - exact <= 0.05
  {
    var tenths := wordCount as real / (durationMs / 60000.0) * 10.0 + 0.5;
    assert tenths.Floor as real <= tenths < tenths.Floor as real + 1.0;
  }

  datatype Rules = Rules(durationMs: Option<real>, minWpm: Option<real>, maxErrors: Option<nat>)

  datatype Assessment = Assessment(
    passed: bool, wordCount: nat, errorCount: nat, flawedWordCount: nat, accuracy: real, wpm: Option<real>,
    tooSlow: bool, words: seq<WordResult>)

  /** The share of words without an error. */
  function Accuracy(wordCount: nat, errorCount: nat): real
    requires wordCount > 0
  {
    (wordCount as real - errorCount as real) / wordCount as real
  }

  // ---------------------------------------------------------------------------
  // Counting errors
  // ---------------------------------------------------------------------------

  function Statuses(ws: seq<WordResult>): (r: seq<Status>)
    ensures |r| == |ws| && forall k :: 0 <= k < |ws| ==> r[k] == ws[k].status
  {
    seq(|ws|, k requires 0 <= k < |ws| => ws[k].status)
  }

  /** One error per substituted or omitted word, and one per transposed pair; a transposed
      word with no transposed right neighbour left to pair with is an error on its own. */
  function Errors(ss: seq<Status>): nat {
    if ss == [] then 0
    else match ss[0]
      case Substituted => 1 + Errors(ss[1..])
      case Omitted => 1 + Errors(ss[1..])
      case Transposed => 1 + (if |ss| > 1 && ss[1] == Transposed then Errors(ss[2..]) else Errors(ss[1..]))
      case _ => Errors(ss[1..])
  }

  function Flawed(ss: seq<Status>): nat {
    if ss == [] then 0 else (if ss[0] == Correct then 0 else 1) + Flawed(ss[1..])
  }

  function Missed(ss: seq<Status>): nat {
    if ss == [] then 0
    else (if ss[0] == Substituted || ss[0] == Omitted then 1 else 0) + Missed(ss[1..])
  }

  /** The run-length count of the source: half of every maximal transposed run, rounded up. */
  function RunErrors(ss: seq<Status>, run: nat): nat {
    if ss == [] then (run + 1) / 2
    else if ss[0] == Transposed then RunErrors(ss[1..], run + 1)
    else (run + 1) / 2 + RunErrors(ss[1..], 0)
  }

  lemma {:induction false} TwoMoreIsOneError(ss: seq<Status>, run: nat)
    ensures RunErrors(ss, run + 2) == 1 + RunErrors(ss, run)
    decreases |ss|
  {
    if ss != [] && ss[0] == Transposed {
      TwoMoreIsOneError(ss[1..], run + 1);
    }
  }

  /** Counting runs and counting pairs agree. */
  lemma {:induction false} RunsAndPairsAgree(ss: seq<Status>)
    ensures Missed(ss) + RunErrors(ss, 0) == Errors(ss)
    decreases |ss|
  {
    if ss != [] {
      RunsAndPairsAgree(ss[1..]);
      if ss[0] == Transposed {
        if |ss| > 1 && ss[1] == Transposed {
          assert ss[1..][1..] == ss[2..];
          RunsAndPairsAgree(ss[2..]);
          TwoMoreIsOneError(ss[2..], 0);
        } else if |ss| > 1 {
          assert RunErrors(ss, 0) == RunErrors(ss[1..], 1) == 1 + RunErrors(ss[1..][1..], 0);
        }
      }
    }
  }

  method CountErrors(fused: seq<WordResult>) returns (errorCount: nat)
    ensures errorCount == Errors(Statuses(fused))
  {
    var ss := Statuses(fused);
    var missed := 0;
    for k := 0 to |fused|
      invariant missed + Missed(ss[k..]) == Missed(ss)
    {
      assert ss[k..][1..] == ss[k + 1..];
      if fused[k].status == Substituted || fused[k].status == Omitted { missed := missed + 1; }
    }
    var transpositionErrors, transposedRun := 0, 0;
    for k := 0 to |fused|
      invariant transpositionErrors + RunErrors(ss[k..], transposedRun) == RunErrors(ss, 0)
    {
      assert ss[k..][1..] == ss[k + 1..];
      if fused[k].status == Transposed {
        transposedRun := transposedRun + 1;
      } else {
        transpositionErrors := transpositionErrors + (transposedRun + 1) / 2;
        transposedRun := 0;
      }
    }
    transpositionErrors := transpositionErrors + (transposedRun + 1) / 2;
    RunsAndPairsAgree(ss);
    errorCount := missed + transpositionErrors;
  }

  method CountFlawed(fused: seq<WordResult>) returns (flawed: nat)
    ensures flawed == Flawed(Statuses(fused))
  {
    var ss := Statuses(fused);
    flawed := 0;
    for k := 0 to |fused|
      invariant flawed + Flawed(ss[k..]) == Flawed(ss)
    {
      assert ss[k..][1..] == ss[k + 1..];
      if fused[k].status != Correct { flawed := flawed + 1; }
    }
  }

  /** errorCount <= flawedWordCount <= wordCount. */
  lemma {:induction false} ErrorsWithinFlawed(ss: seq<Status>)
    ensures Errors(ss) <= Flawed(ss) <= |ss|
    decreases |ss|
  {
    if ss != [] {
      ErrorsWithinFlawed(ss[1..]);
      if ss[0] == Transposed && |ss| > 1 && ss[1] == Transposed {
        ErrorsWithinFlawed(ss[2..]);
        assert ss[1..][1..] == ss[2..];
      }
    }
  }

  /** Dropping the first word drops at most one error and adds none. */
  lemma {:induction false} FirstWordIsAtMostOneError(ss: seq<Status>)
    requires ss != []
    ensures Errors(ss[1..]) <= Errors(ss) <= 1 + Errors(ss[1..])
    decreases |ss|
  {
    if ss[0] == Transposed && |ss| > 1 && ss[1] == Transposed {
      assert ss[1..][1..] == ss[2..];
      FirstWordIsAtMostOneError(ss[1..]);
    }
  }

  /** Word by word at least as good a status, by the fusion order. */
  predicate NoWorse(ss: seq<Status>, ts: seq<Status>) {
    |ss| == |ts| && forall k :: 0 <= k < |ss| ==> Rank(ss[k]) <= Rank(ts[k])
  }

  /** Better statuses never count more errors, although upgrading a word regroups the transposed runs. */
  lemma {:induction false} BetterStatusesFewerErrors(ss: seq<Status>, ts: seq<Status>)
    requires NoWorse(ss, ts)
    ensures Errors(ss) <= Errors(ts) && Flawed(ss) <= Flawed(ts)
    decreases |ss|
  {
    if ss != [] {
      BetterStatusesFewerErrors(ss[1..], ts[1..]);
      FirstWordIsAtMostOneError(ss);
      FirstWordIsAtMostOneError(ts);
      if ts[0] == Transposed && |ts| > 1 && ts[1] == Transposed {
        BetterStatusesFewerErrors(ss[2..], ts[2..]);
        FirstWordIsAtMostOneError(ss[1..]);
        assert ss[1..][1..] == ss[2..];
        assert Rank(ss[0]) <= 2 && Rank(ss[1]) <= 2;
      }
    }
  }

  /** Within one transcript every transposed word is half of a marked pair, so the errors are the
      missed words plus half the transposed ones. */
  function TransposedCount(ss: seq<Status>): nat {
    if ss == [] then 0 else (if ss[0] == Transposed then 1 else 0) + TransposedCount(ss[1..])
  }

  lemma {:induction false} OneErrorPerMarkedPair(jd: Judge, targets: seq<Token>, rs: seq<WordResult>)
    requires |rs| == |targets| && forall k :: 0 <= k < |rs| ==> rs[k].status != Transposed
    ensures var ss := Statuses(Swept(jd, targets, rs));
            TransposedCount(ss) % 2 == 0 && Errors(ss) == Missed(ss) + TransposedCount(ss) / 2
    decreases |rs|
  {
    hide Swept, IsSwap;
    if |rs| < 2 {
      FewAreUnmarked(jd, targets, rs);
    } else {
      SweptStep(jd, targets, rs);
      var step := if IsSwap(jd, targets, rs, 0) then 2 else 1;
      OneErrorPerMarkedPair(jd, targets[step..], rs[step..]);
      var rest := Swept(jd, targets[step..], rs[step..]);
      if step == 2 { PairInFront(Swapped(rs[0]), Swapped(rs[1]), rest); } else { PlainInFront(rs[0], rest); }
    }
  }

  lemma FewAreUnmarked(jd: Judge, targets: seq<Token>, rs: seq<WordResult>)
    requires |rs| == |targets| < 2 && forall k :: 0 <= k < |rs| ==> rs[k].status != Transposed
    ensures var ss := Statuses(Swept(jd, targets, rs));
            TransposedCount(ss) == 0 && Errors(ss) == Missed(ss)
  {
    var ss := Statuses(rs);
    if |rs| == 1 { assert ss[1..] == []; }
  }

  lemma PairInFront(a: WordResult, b: WordResult, rest: seq<WordResult>)
    requires a.status == Transposed && b.status == Transposed
    ensures var ss, all := Statuses(rest), Statuses([a, b] + rest);
            && TransposedCount(all) == TransposedCount(ss) + 2
            && Errors(all) == Errors(ss) + 1 && Missed(all) == Missed(ss)
  {
    var all := Statuses([a, b] + rest);
    assert all[2..] == Statuses(rest) && all[1..][1..] == all[2..];
  }

  lemma PlainInFront(a: WordResult, rest: seq<WordResult>)
    requires a.status != Transposed
    ensures var ss, all := Statuses(rest), Statuses([a] + rest);
            && TransposedCount(all) == TransposedCount(ss) && Errors(all) - Missed(all) == Errors(ss) - Missed(ss)
  {
    assert Statuses([a] + rest)[1..] == Statuses(rest);
  }

  // ---------------------------------------------------------------------------
  // Segments and fusion
  // ---------------------------------------------------------------------------

  /** String.split('~'): always at least one piece. */
  function Split(t: string): (r: seq<string>)
    ensures r != []
  {
    if t == "" then [""]
    else
      var rest := Split(t[1..]);
      if t[0] == '~' then [""] + rest else [[t[0]] + rest[0]] + rest[1..]
  }

  function Join(pieces: seq<string>): string
    requires pieces != []
  {
    if |pieces| == 1 then pieces[0] else pieces[0] + "~" + Join(pieces[1..])
  }

  /** Splitting cuts exactly at the join tokens: no piece holds one, and joining the pieces gives the text back. */
  lemma {:induction false} SplitsAtEveryTilde(t: string)
    ensures Join(Split(t)) == t
    ensures forall k :: 0 <= k < |Split(t)| ==> '~' !in Split(t)[k]
    decreases |t|
  {
    if t != "" {
      var rest := Split(t[1..]);
      SplitsAtEveryTilde(t[1..]);
      assert t == [t[0]] + t[1..];
      if t[0] == '~' { JoinNew(rest); } else { JoinLonger(t[0], rest); }
      hide Join;
    }
  }

  lemma JoinNew(rest: seq<string>)
    requires rest != []
    ensures Join([""] + rest) == "~" + Join(rest)
  {
    assert ([""] + rest)[1..] == rest;
  }

  lemma JoinLonger(c: char, rest: seq<string>)
    requires rest != []
    ensures Join([[c] + rest[0]] + rest[1..]) == [c] + Join(rest)
  {
    var longer := [[c] + rest[0]] + rest[1..];
    assert longer[1..] == rest[1..];
  }

  function Spoken(jd: Judge, pieces: seq<string>): seq<seq<Token>> {
    if pieces == [] then []
    else
      var tokens := jd.tokenize(pieces[0]);
      (if |tokens| > 0 then [tokens] else []) + Spoken(jd, pieces[1..])
  }

  function Segments(jd: Judge, transcripts: seq<string>): seq<seq<Token>> {
    if transcripts == [] then [] else Spoken(jd, Split(transcripts[0])) + Segments(jd, transcripts[1..])
  }

  /** Some piece of the transcript is tokenized into s. */
  ghost predicate Says(jd: Judge, pieces: seq<string>, s: seq<Token>) { exists p :: p in pieces && jd.tokenize(p) == s }

  lemma {:induction false} SpokenAreThePieces(jd: Judge, pieces: seq<string>, s: seq<Token>)
    ensures s in Spoken(jd, pieces) <==> s != [] && Says(jd, pieces, s)
    decreases |pieces|
  {
    if pieces != [] {
      SpokenAreThePieces(jd, pieces[1..], s);
      assert pieces == [pieces[0]] + pieces[1..];
      if jd.tokenize(pieces[0]) == s { assert pieces[0] in pieces; }
    }
  }

  /** The segments are the tokens of the pieces of all transcripts, the silent ones left out. */
  lemma {:induction false} SegmentsAreThePieces(jd: Judge, transcripts: seq<string>, s: seq<Token>)
    ensures s in Segments(jd, transcripts) <==> s != [] && exists t :: t in transcripts && Says(jd, Split(t), s)
    decreases |transcripts|
  {
    hide Split, Spoken, Says;
    if transcripts != [] {
      SpokenAreThePieces(jd, Split(transcripts[0]), s);
      SegmentsAreThePieces(jd, transcripts[1..], s);
      assert transcripts == [transcripts[0]] + transcripts[1..];
      if Says(jd, Split(transcripts[0]), s) { assert transcripts[0] in transcripts; }
    }
  }

  /** They come in the order of the transcripts, and within one in the order of its pieces. */
  lemma {:induction false} SegmentsInOrder(jd: Judge, a: seq<string>, b: seq<string>)
    ensures Segments(jd, a + b) == Segments(jd, a) + Segments(jd, b)
    ensures Spoken(jd, a + b) == Spoken(jd, a) + Spoken(jd, b)
    decreases |a|
  {
    if a == [] {
      assert a + b == b;
    } else {
      assert (a + b)[0] == a[0] && (a + b)[1..] == a[1..] + b;
      SegmentsInOrder(jd, a[1..], b);
    }
  }

  /** What is aligned: every non-empty segment, or one empty transcript when there is none. */
  function Heard(jd: Judge, transcripts: seq<string>): (r: seq<seq<Token>>)
    ensures r != []
  {
    var segments := Segments(jd, transcripts);
    if |segments| > 0 then segments else [[]]
  }

  /** The fused word: of the engines' verdicts on it, the earliest one of best rank. */
  ghost predicate IsFused(best: WordResult, candidates: seq<WordResult>) {
    exists a :: 0 <= a < |candidates| && best == candidates[a]
      && (forall b :: 0 <= b < |candidates| ==> Rank(best.status) <= Rank(candidates[b].status))
      && (forall b :: 0 <= b < a ==> Rank(best.status) < Rank(candidates[b].status))
  }

  ghost function Candidates(jd: Judge, words: seq<Token>, heard: seq<seq<Token>>, wi: nat): (r: seq<WordResult>)
    requires wi < |words|
    ensures |r| == |heard|
  {
    seq(|heard|, a requires 0 <= a < |heard| => Alignment(jd, words, heard[a])[wi])
  }

  /** The assessment of a read, as a relation to its inputs. */
  ghost predicate Assesses(jd: Judge, words: seq<Token>, transcripts: seq<string>, rules: Rules, r: Assessment) {
    if words == [] then r == Assessment(false, 0, 0, 0, 0.0, None, false, [])
    else
      && |r.words| == |words| == r.wordCount
      && (forall wi :: 0 <= wi < |words| ==> IsFused(r.words[wi], Candidates(jd, words, Heard(jd, transcripts), wi)))
      && r.errorCount == Errors(Statuses(r.words))
      && r.flawedWordCount == Flawed(Statuses(r.words))
      && r.accuracy == Accuracy(|words|, r.errorCount)
      && r.wpm == ReadingWpm(|words|, rules.durationMs)
      && r.tooSlow == (rules.minWpm.Some? && r.wpm.Some? && r.wpm.value < rules.minWpm.value)
      && r.passed == (r.errorCount <= (if rules.maxErrors.Some? then rules.maxErrors.value
                                       else ReadErrorBudget(|words|))
                      && FlawedWordBudgetOk(r.flawedWordCount, |words|) && !r.tooSlow)
  }

  method AlignAll(jd: Judge, words: seq<Token>, heard: seq<seq<Token>>) returns (alignments: seq<seq<WordResult>>)
    ensures |alignments| == |heard|
    ensures forall a :: 0 <= a < |heard| ==> alignments[a] == Alignment(jd, words, heard[a])
  {
    alignments := [];
    for a := 0 to |heard|
      invariant |alignments| == a
      invariant forall b :: 0 <= b < a ==> alignments[b] == Alignment(jd, words, heard[b])
    {
      hide Alignment;
      var results := AlignTranscript(jd, words, heard[a]);
      alignments := alignments + [results[..]];
    }
  }

  method FuseWord(alignments: seq<seq<WordResult>>, wi: nat, ghost candidates: seq<WordResult>)
    returns (best: WordResult)
    requires alignments != [] && |candidates| == |alignments|
    requires forall a :: 0 <= a < |alignments| ==> wi < |alignments[a]| && candidates[a] == alignments[a][wi]
    ensures IsFused(best, candidates)
  {
    best := alignments[0][wi];
    ghost var at := 0;
    for ai := 1 to |alignments|
      invariant 0 <= at < ai && best == candidates[at]
      invariant forall b :: 0 <= b < ai ==> Rank(best.status) <= Rank(candidates[b].status)
      invariant forall b :: 0 <= b < at ==> Rank(best.status) < Rank(candidates[b].status)
    {
      var candidate := alignments[ai][wi];
      if Rank(candidate.status) < Rank(best.status) {
        best := candidate;
        at := ai;
      }
    }
  }

  method AssessSentence(jd: Judge, words: seq<Token>, transcripts: seq<string>, rules: Rules) returns (r: Assessment)
    ensures Assesses(jd, words, transcripts, rules, r)
  {
    if |words| == 0 {
      return Assessment(false, 0, 0, 0, 0.0, None, false, []);
    }
    hide Alignment;
    var heard := Heard(jd, transcripts);
    var alignments := AlignAll(jd, words, heard);
    var fused: seq<WordResult> := [];
    for wi := 0 to |words|
      invariant |fused| == wi
      invariant forall k :: 0 <= k < wi ==> IsFused(fused[k], Candidates(jd, words, heard, k))
    {
      var best := FuseWord(alignments, wi, Candidates(jd, words, heard, wi));
      fused := fused + [best];
    }
    var errorCount := CountErrors(fused);
    var flawed := CountFlawed(fused);
    var wpm := ReadingWpm(|words|, rules.durationMs);
    var tooSlow := rules.minWpm.Some? && wpm.Some? && wpm.value < rules.minWpm.value;
    var allowed := if rules.maxErrors.Some? then rules.maxErrors.value else ReadErrorBudget(|words|);
    r := Assessment(errorCount <= allowed && FlawedWordBudgetOk(flawed, |words|) && !tooSlow,
                    |words|, errorCount, flawed, Accuracy(|words|, errorCount), wpm, tooSlow, fused);
  }

  // ---------------------------------------------------------------------------
  // Monotonicity, bounds, fluent reads
  // ---------------------------------------------------------------------------

  lemma {:induction false} SegmentsOfMember(jd: Judge, transcripts: seq<string>, s: seq<Token>)
    ensures s in Segments(jd, transcripts) <==> exists t :: t in transcripts && s in Spoken(jd, Split(t))
    decreases |transcripts|
  {
    hide Spoken, Split;
    if transcripts != [] {
      SegmentsOfMember(jd, transcripts[1..], s);
      assert transcripts[0] in transcripts;
      if t :| t in transcripts && s in Spoken(jd, Split(t)) {
        assert t == transcripts[0] || t in transcripts[1..];
      }
    }
  }

  /** A word omitted by an empty transcript cannot be beaten downwards: Omitted is the worst rank,
      so replacing the fallback by real segments never makes a word worse. */
  lemma FusedNoWorse(jd: Judge, words: seq<Token>, heard: seq<seq<Token>>, heard': seq<seq<Token>>, wi: nat,
                     w: WordResult, w': WordResult)
    requires wi < |words|
    requires heard == [[]] || forall s :: s in heard ==> s in heard'
    requires IsFused(w, Candidates(jd, words, heard, wi)) && IsFused(w', Candidates(jd, words, heard', wi))
    ensures Rank(w'.status) <= Rank(w.status)
  {
    hide Alignment;
    var a :| 0 <= a < |heard| && w == Candidates(jd, words, heard, wi)[a];
    if heard == [[]] {
      EmptyTranscriptOmitsAll(jd, words, wi);
      assert w.status == Omitted;
    } else {
      assert heard[a] in heard;
      var b :| 0 <= b < |heard'| && heard'[b] == heard[a];
      assert Candidates(jd, words, heard', wi)[b] == w;
    }
  }

  lemma {:induction false} NothingHeard(jd: Judge, words: seq<Token>, i: nat, wi: nat)
    requires wi < i <= |words|
    ensures Traced(jd, words, [], i, 0)[wi].status == Omitted
  {
    if wi < i - 1 { NothingHeard(jd, words, i - 1, wi); }
  }

  lemma EmptyTranscriptOmitsAll(jd: Judge, words: seq<Token>, wi: nat)
    requires wi < |words|
    ensures Alignment(jd, words, [])[wi].status == Omitted
  {
    var rs := Traced(jd, words, [], |words|, 0);
    NothingHeard(jd, words, |words|, wi);
    MarkSwapsIsSwept(jd, words, rs, 0);
    assert words[0..] == words && rs[0..] == rs;
    SweptTouchesMisreadsOnly(jd, words, rs, wi);
  }

  /** More evidence never hurts: if every transcript of the first read is also in the second, in any
      order and with any others, the second has no more errors and no more flawed words, and passes if the first did. */
  lemma MoreTranscriptsNeverHurt(jd: Judge, words: seq<Token>, transcripts: seq<string>, more: seq<string>,
                                 rules: Rules,
                                 r: Assessment, r': Assessment)
    requires forall t :: t in transcripts ==> t in more
    requires Assesses(jd, words, transcripts, rules, r) && Assesses(jd, words, more, rules, r')
    ensures r'.errorCount <= r.errorCount && r'.flawedWordCount <= r.flawedWordCount
    ensures r'.accuracy >= r.accuracy
    ensures r.passed ==> r'.passed
  {
    if words != [] {
      var heard, heard' := Heard(jd, transcripts), Heard(jd, more);
      if heard != [[]] {
        forall s | s in heard ensures s in heard' {
          assert s in Segments(jd, transcripts);
          SegmentsOfMember(jd, transcripts, s);
          SegmentsOfMember(jd, more, s);
        }
      }
      hide Candidates, IsFused, Heard;
      forall wi | 0 <= wi < |words| ensures Rank(r'.words[wi].status) <= Rank(r.words[wi].status) {
        FusedNoWorse(jd, words, heard, heard', wi, r.words[wi], r'.words[wi]);
      }
      BetterStatusesFewerErrors(Statuses(r'.words), Statuses(r.words));
      FewerErrorsMoreAccurate(|words|, r'.errorCount, r.errorCount);
      hide Accuracy;
    }
  }

  lemma FewerErrorsMoreAccurate(wordCount: nat, fewer: nat, more: nat)
    requires wordCount > 0 && fewer <= more
    ensures Accuracy(wordCount, fewer) >= Accuracy(wordCount, more)
    ensures Accuracy(wordCount, 0) == 1.0 && Accuracy(wordCount, wordCount) == 0.0
  {
  }

  /** The three counts of any assessment are nested, and the accuracy is a share. */
  lemma CountsAreNested(jd: Judge, words: seq<Token>, transcripts: seq<string>, rules: Rules, r: Assessment)
    requires Assesses(jd, words, transcripts, rules, r)
    ensures r.errorCount <= r.flawedWordCount <= r.wordCount == |words| && 0.0 <= r.accuracy <= 1.0
  {
    ErrorsWithinFlawed(Statuses(r.words));
    if words != [] {
      FewerErrorsMoreAccurate(|words|, 0, r.errorCount);
      FewerErrorsMoreAccurate(|words|, r.errorCount, |words|);
      hide Accuracy, IsFused, Candidates;
    }
  }

  lemma {:induction false} CleanStatuses(ss: seq<Status>)
    requires forall k :: 0 <= k < |ss| ==> ss[k] == Correct
    ensures Errors(ss) == 0 && Flawed(ss) == 0
    decreases |ss|
  {
    if ss != [] { CleanStatuses(ss[1..]); }
  }

  lemma CorrectWins(jd: Judge, words: seq<Token>, heard: seq<seq<Token>>, s: seq<Token>, wi: nat, w: WordResult)
    requires wi < |words| && s in heard && IsFused(w, Candidates(jd, words, heard, wi))
    requires Alignment(jd, words, s)[wi].status == Correct
    ensures w.status == Correct
  {
    hide Alignment;
    var a :| 0 <= a < |heard| && heard[a] == s;
    assert Candidates(jd, words, heard, wi)[a].status == Correct;
  }

  /** One engine that got every word right settles the read. */
  lemma CleanSegmentWins(jd: Judge, words: seq<Token>, transcripts: seq<string>, rules: Rules, r: Assessment,
                         s: seq<Token>)
    requires words != [] && Assesses(jd, words, transcripts, rules, r)
    requires s in Segments(jd, transcripts) && AllCorrect(Alignment(jd, words, s))
    ensures AllCorrect(r.words) && r.errorCount == 0 && r.flawedWordCount == 0
    ensures r.passed <==> !r.tooSlow
  {
    var heard := Heard(jd, transcripts);
    assert s in heard;
    hide Alignment, IsFused, Candidates, Heard, Segments;
    forall wi | 0 <= wi < |words| ensures r.words[wi].status == Correct {
      CorrectWins(jd, words, heard, s, wi, r.words[wi]);
    }
    CleanStatuses(Statuses(r.words));
  }

  /** If any engine heard a transcript that aligns at no cost, every word is correct and only the speed gate can
      fail the read. */
  lemma ZeroCostSegmentPasses(jd: Judge, words: seq<Token>, transcripts: seq<string>, rules: Rules, r: Assessment,
                              s: seq<Token>)
    requires words != [] && Assesses(jd, words, transcripts, rules, r)
    requires s in Segments(jd, transcripts) && MinCost(jd, words, s, |words|, |s|) == 0
    ensures AllCorrect(r.words) && r.errorCount == 0 && r.flawedWordCount == 0
    ensures r.passed <==> !r.tooSlow
  {
    hide *;
    ZeroCostIsAllCorrect(jd, words, s);
    CleanSegmentWins(jd, words, transcripts, rules, r, s);
  }

  /** A fluent reading heard by any one engine is marked all correct. */
  lemma FluentReadingPasses(jd: Judge, words: seq<Token>, transcripts: seq<string>, rules: Rules, r: Assessment,
                            s: seq<Token>)
    requires words != [] && Assesses(jd, words, transcripts, rules, r)
    requires s in Segments(jd, transcripts) && FluentReading(jd, words, s)
    ensures AllCorrect(r.words) && r.errorCount == 0 && r.flawedWordCount == 0
    ensures r.passed <==> !r.tooSlow
  {
    FluentReadingIsFree(jd, words, s);
    ZeroCostSegmentPasses(jd, words, transcripts, rules, r, s);
  }

  // ---------------------------------------------------------------------------
  // Drill word
  // ---------------------------------------------------------------------------

  predicate Drillable(w: WordResult) { (w.status == Substituted || w.status == Omitted) && w.teachable }

  ghost predicate IsWorst(words: seq<WordResult>, k: nat)
    requires k < |words|
  {
    Drillable(words[k]) &&
    forall l :: 0 <= l < |words| && Drillable(words[l]) ==> words[l].aksharaDistance <= words[k].aksharaDistance
  }

  /** One of the worst drillable words: `pick` stands for the random choice among ties. */
  method SelectDrillWord(words: seq<WordResult>, pick: nat) returns (drill: Option<Token>)
    ensures drill.None? <==> forall k :: 0 <= k < |words| ==> !Drillable(words[k])
    ensures drill.Some? ==> exists k :: 0 <= k < |words| && drill.value == words[k].target && IsWorst(words, k)
  {
    var candidates: seq<WordResult> := [];
    for k := 0 to |words|
      invariant forall w :: w in candidates <==> w in words[..k] && Drillable(w)
    {
      assert words[..k + 1] == words[..k] + [words[k]];
      if Drillable(words[k]) { candidates := candidates + [words[k]]; }
    }
    assert words[..|words|] == words;
    if |candidates| == 0 {
      assert forall k :: 0 <= k < |words| ==> words[k] in words && words[k] !in candidates;
      return None;
    }
    assert candidates[0] in candidates;
    var maxDistance := candidates[0].aksharaDistance;
    for k := 0 to |candidates|
      invariant forall l :: 0 <= l < k ==> candidates[l].aksharaDistance <= maxDistance
      invariant exists l :: 0 <= l < |candidates| && candidates[l].aksharaDistance == maxDistance
    {
      if candidates[k].aksharaDistance > maxDistance { maxDistance := candidates[k].aksharaDistance; }
    }
    var worst: seq<WordResult> := [];
    for k := 0 to |candidates|
      invariant forall w :: w in worst ==> w in candidates && w.aksharaDistance == maxDistance
      invariant forall l :: 0 <= l < k && candidates[l].aksharaDistance == maxDistance ==> candidates[l] in worst
    {
      if candidates[k].aksharaDistance == maxDistance { worst := worst + [candidates[k]]; }
    }
    var chosen := worst[pick % |worst|];
    assert chosen in worst && chosen in candidates && chosen in words;
    assert forall l :: 0 <= l < |words| && Drillable(words[l]) ==> words[l] in words && words[l] in candidates;
    var k :| 0 <= k < |words| && words[k] == chosen;
    assert IsWorst(words, k);
    drill := Some(chosen.target);
  }

  /** A drill word exists only in a read with at least one error: remediation cannot contradict the verdict. */
  lemma {:induction false} DrillableMeansError(ws: seq<WordResult>, k: nat)
    requires k < |ws| && Drillable(ws[k])
    ensures Errors(Statuses(ws)) > 0
    decreases k
  {
    if k > 0 {
      DrillableMeansError(ws[1..], k - 1);
      assert Statuses(ws)[1..] == Statuses(ws[1..]);
      FirstWordIsAtMostOneError(Statuses(ws));
    }
  }
}
