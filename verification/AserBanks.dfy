/** The five item banks of the ASER test and the rotation between them (src/literacy/aser/aser.ts). */
module AserBanks {
  import opened Options
  import opened StableSort

  datatype Bank = A | B | C | D | E

  const BANK_ORDER: seq<Bank> := [A, B, C, D, E]

  function Words(b: Bank): seq<string> {
    match b
    case A => ["खुशी", "जय", "सेब", "हाथ", "दूध", "कप", "ऊन", "तैर", "आठ", "मिल"]
    case B => ["घर", "भेज", "मन", "बैठ", "फूल", "चोटी", "ईख", "दस", "पिता", "कौआ"]
    case C => ["अभी", "मेज", "धूप", "दिख", "छत", "फल", "चुन", "हवा", "बस", "और"]
    case D => ["दिन", "पौधा", "आग", "सब", "शुभ", "एक", "रोटी", "खेत", "चल", "घूम"]
    case E => ["आज", "डूब", "रुक", "छिप", "सच", "भाई", "देख", "हम", "ढोल", "तीन"]
  }

  function Letters(b: Bank): seq<string> {
    match b
    case A => ["छ", "च", "ऐ", "व", "घ", "भ", "ओ", "ग", "ट", "ड"]
    case B => ["ह", "छ", "अ", "ड", "ग", "ध", "इ", "श", "व", "थ"]
    case C => ["ट", "थ", "ई", "क", "श", "य", "ऊ", "घ", "ठ", "ग"]
    case D => ["छ", "य", "ऊ", "ज", "ठ", "ड", "ओ", "थ", "फ", "ह"]
    case E => ["ट", "घ", "ओ", "ध", "य", "थ", "औ", "फ", "ठ", "व"]
  }

  const BANK_SIZE: nat := 10

  ghost predicate NoDuplicates<T>(s: seq<T>) { forall i, j :: 0 <= i < j < |s| ==> s[i] != s[j] }

  lemma WordsAreTen(b: Bank)
    ensures |Words(b)| == BANK_SIZE && NoDuplicates(Words(b))
  {
    match b { case A => TenOfA(); case B => TenOfB(); case C => TenOfC(); case D => TenOfD(); case E => TenOfE(); }
    hide Words;
  }

  lemma LettersAreTen(b: Bank)
    ensures |Letters(b)| == BANK_SIZE && NoDuplicates(Letters(b))
  {
    match b { case A => TenOfA(); case B => TenOfB(); case C => TenOfC(); case D => TenOfD(); case E => TenOfE(); }
    hide Letters;
  }

  lemma TenOfA()
    ensures |Words(A)| == BANK_SIZE && NoDuplicates(Words(A))
    ensures |Letters(A)| == BANK_SIZE && NoDuplicates(Letters(A))
  {
  }

  lemma TenOfB()
    ensures |Words(B)| == BANK_SIZE && NoDuplicates(Words(B))
    ensures |Letters(B)| == BANK_SIZE && NoDuplicates(Letters(B))
  {
  }

  lemma TenOfC()
    ensures |Words(C)| == BANK_SIZE && NoDuplicates(Words(C))
    ensures |Letters(C)| == BANK_SIZE && NoDuplicates(Letters(C))
  {
  }

  lemma TenOfD()
    ensures |Words(D)| == BANK_SIZE && NoDuplicates(Words(D))
    ensures |Letters(D)| == BANK_SIZE && NoDuplicates(Letters(D))
  {
  }

  lemma TenOfE()
    ensures |Words(E)| == BANK_SIZE && NoDuplicates(Words(E))
    ensures |Letters(E)| == BANK_SIZE && NoDuplicates(Letters(E))
  {
  }

  /** Word k of the bank holds none of its letters. */
  ghost predicate TeachesNoLetter(b: Bank, k: nat)
    requires k < |Words(b)|
  {
    forall i, l :: 0 <= i < |Words(b)[k]| && 0 <= l < |Letters(b)| ==> [Words(b)[k][i]] != Letters(b)[l]
  }

  /** The words of a bank never teach a letter that the letter level then tests. */
  lemma WordsTeachNoTestedLetter(b: Bank, w: string, c: char)
    requires w in Words(b) && c in w
    ensures [c] !in Letters(b)
  {
    var k :| 0 <= k < |Words(b)| && Words(b)[k] == w;
    match b {
      case A => WordsOfA(k);
      case B => WordsOfB(k);
      case C => WordsOfC(k);
      case D => WordsOfD(k);
      case E => WordsOfE(k);
    }
    hide Words, Letters;
  }

  lemma WordsOfA(k: nat)
    requires k < |Words(A)|
    ensures TeachesNoLetter(A, k)
  {
  }

  lemma WordsOfB(k: nat)
    requires k < |Words(B)|
    ensures TeachesNoLetter(B, k)
  {
  }

  lemma WordsOfC(k: nat)
    requires k < |Words(C)|
    ensures TeachesNoLetter(C, k)
  {
  }

  lemma WordsOfD(k: nat)
    requires k < |Words(D)|
    ensures TeachesNoLetter(D, k)
  {
  }

  lemma WordsOfE(k: nat)
    requires k < |Words(E)|
    ensures TeachesNoLetter(E, k)
  {
  }

  // ---------------------------------------------------------------------------
  // chooseBank
  // ---------------------------------------------------------------------------

  /** One past run: the bank it drew, and whether any of it was shown. */
  datatype Entry = Entry(run: int, bank: Bank, shown: bool)

  const BY_RUN: Entry -> int := (e: Entry) => e.run

  /** The banks shown since the cycle last restarted. */
  function Seen(h: seq<Entry>): set<Bank> {
    if h == [] then {}
    else
      var seen, e := Seen(h[..|h| - 1]), h[|h| - 1];
      if !e.shown then seen
      else if |seen + {e.bank}| == |BANK_ORDER| then {} else seen + {e.bank}
  }

  function LastShown(h: seq<Entry>): Option<Bank> {
    if h == [] then None
    else if h[|h| - 1].shown then Some(h[|h| - 1].bank) else LastShown(h[..|h| - 1])
  }

  predicate Offered(h: seq<Entry>, b: Bank) {
    b !in Seen(h) && !(Seen(h) == {} && LastShown(h) == Some(b))
  }

  /** The bank for the next run; pick stands for the random draw. */
  method ChooseBank(history: seq<Entry>, pick: nat) returns (bank: Bank)
    ensures Offered(Sort(history, BY_RUN), bank)
  {
    var seen: set<Bank> := {};
    var lastShown: Option<Bank> := None;
    var ordered := Sort(history, BY_RUN);
    for k := 0 to |ordered|
      invariant seen == Seen(ordered[..k]) && lastShown == LastShown(ordered[..k])
    {
      hide Sort;
      var h := ordered[k];
      assert ordered[..k + 1][..k] == ordered[..k];
      if h.shown {
        seen := seen + {h.bank};
        lastShown := Some(h.bank);
        if |seen| == |BANK_ORDER| { seen := {}; }
      }
    }
    assert ordered[..|ordered|] == ordered;
    OptionsRemain(ordered);
    hide Sort, Seen, LastShown;
    var options: seq<Bank> := [];
    for k := 0 to |BANK_ORDER|
      invariant forall b :: b in options <==> b in BANK_ORDER[..k] && Offered(ordered, b)
    {
      assert BANK_ORDER[..k + 1] == BANK_ORDER[..k] + [BANK_ORDER[k]];
      var b := BANK_ORDER[k];
      if b !in seen && !(|seen| == 0 && lastShown.Some? && b == lastShown.value) { options := options + [b]; }
    }
    var b :| b in BANK_ORDER && Offered(ordered, b);
    assert BANK_ORDER[..|BANK_ORDER|] == BANK_ORDER && b in options;
    bank := options[pick % |options|];
    assert bank in options;
  }

  /** Whatever the history, some bank is always on offer. */
  lemma OptionsRemain(h: seq<Entry>)
    ensures |Seen(h)| < |BANK_ORDER|
    ensures exists b :: b in BANK_ORDER && Offered(h, b)
  {
    SeenIsShort(h);
    var all := {A, B, C, D, E};
    var barred := if Seen(h) == {} && LastShown(h).Some? then {LastShown(h).value} else Seen(h);
    if all <= barred { SubsetSize(all, barred); }
    var b :| b in all && b !in barred;
    assert b in BANK_ORDER && Offered(h, b);
  }

  lemma {:induction false} SeenIsShort(h: seq<Entry>)
    ensures |Seen(h)| < |BANK_ORDER|
    decreases |h|
  {
    if h != [] { SeenIsShort(h[..|h| - 1]); }
  }

  lemma {:induction false} SubsetSize<T>(a: set<T>, b: set<T>)
    requires a <= b
    ensures |a| <= |b|
  {
    if a != {} {
      var x :| x in a;
      SubsetSize(a - {x}, b - {x});
    }
  }

  /** A history as the rotation itself produces it: run k + 1 drew a bank on offer after the first k runs. */
  ghost predicate Rotated(h: seq<Entry>) {
    forall k :: 0 <= k < |h| ==> h[k].run == k + 1 && Offered(h[..k], h[k].bank)
  }

  function ShownBanks(h: seq<Entry>): seq<Bank> {
    if h == [] then []
    else ShownBanks(h[..|h| - 1]) + (if h[|h| - 1].shown then [h[|h| - 1].bank] else [])
  }

  const ALL_BANKS: set<Bank> := {A, B, C, D, E}

  /** The b-th five shown banks are all five banks, once each. */
  ghost predicate FullBlock(shown: seq<Bank>, b: nat)
    requires 5 * b + 5 <= |shown|
  {
    NoDuplicates(shown[5 * b..5 * b + 5]) && Elements(shown[5 * b..5 * b + 5]) == ALL_BANKS
  }

  function Elements<T>(s: seq<T>): set<T> { set x | x in s }

  lemma {:induction false} DistinctSize<T>(s: seq<T>)
    requires NoDuplicates(s)
    ensures |Elements(s)| == |s|
    decreases |s|
  {
    if s != [] {
      DistinctSize(s[1..]);
      assert Elements(s) == Elements(s[1..]) + {s[0]};
    }
  }

  /** The banks shown in the unfinished block. */
  function OpenBlock(shown: seq<Bank>): seq<Bank> { shown[|shown| - |shown| % 5..] }

  lemma OpenBlockGrows(shown: seq<Bank>, bank: Bank)
    ensures var block := OpenBlock(shown) + [bank];
            && OpenBlock(shown + [bank]) == (if |block| == 5 then [] else block)
            && (|block| == 5 ==> (|shown| + 1) % 5 == 0 && (shown + [bank])[|shown| - 4..|shown| + 1] == block)
  {
    var all := shown + [bank];
    if |shown| % 5 == 4 {
      assert OpenBlock(all) == [];
    } else {
      assert |all| - |all| % 5 == |shown| - |shown| % 5;
    }
  }

  ghost predicate BlocksFull(shown: seq<Bank>) { forall b: nat :: 5 * b + 5 <= |shown| ==> FullBlock(shown, b) }

  ghost predicate NeverTwice(shown: seq<Bank>) { forall k :: 0 <= k < |shown| - 1 ==> shown[k] != shown[k + 1] }

  lemma BlocksStayFull(shown: seq<Bank>, bank: Bank)
    requires BlocksFull(shown) && NoDuplicates(OpenBlock(shown)) && bank !in OpenBlock(shown)
    ensures BlocksFull(shown + [bank])
  {
    var all := shown + [bank];
    forall b: nat | 5 * b + 5 <= |all| ensures FullBlock(all, b) {
      if 5 * b + 5 <= |shown| {
        assert FullBlock(shown, b);
        assert all[5 * b..5 * b + 5] == shown[5 * b..5 * b + 5];
      } else {
        hide BlocksFull;
        LastBlockIsFull(shown, bank, b);
      }
      hide FullBlock;
    }
  }

  lemma LastBlockIsFull(shown: seq<Bank>, bank: Bank, b: nat)
    requires NoDuplicates(OpenBlock(shown)) && bank !in OpenBlock(shown) && |shown| + 1 == 5 * b + 5
    ensures FullBlock(shown + [bank], b)
  {
    var block := OpenBlock(shown) + [bank];
    OpenBlockGrows(shown, bank);
    assert |shown| % 5 == 4;
    assert (shown + [bank])[5 * b..5 * b + 5] == block;
    FiveDistinctAreAll(block);
  }

  lemma FiveDistinctAreAll(s: seq<Bank>)
    requires |s| == 5 && NoDuplicates(s)
    ensures Elements(s) == ALL_BANKS
  {
    DistinctSize(s);
    forall bank | bank in Elements(s) ensures bank in ALL_BANKS {
      match bank case A => case B => case C => case D => case E =>
    }
    if Elements(s) != ALL_BANKS {
      var bank :| bank in ALL_BANKS && bank !in Elements(s);
      SubsetSize(Elements(s), ALL_BANKS - {bank});
    }
  }

  /** What the loop of chooseBank has seen is the unfinished block. */
  ghost predicate InStep(h: seq<Entry>) {
    InBlocks(ShownBanks(h), Seen(h)) && LastShown(h) == LastOf(ShownBanks(h))
  }

  ghost predicate InBlocks(shown: seq<Bank>, seen: set<Bank>) {
    seen == Elements(OpenBlock(shown)) && NoDuplicates(OpenBlock(shown)) && BlocksFull(shown) && NeverTwice(shown)
  }

  function LastOf(shown: seq<Bank>): Option<Bank> {
    if shown == [] then None else Some(shown[|shown| - 1])
  }

  lemma NotShownJustBefore(shown: seq<Bank>, seen: set<Bank>, bank: Bank)
    requires InBlocks(shown, seen) && bank !in seen && !(seen == {} && LastOf(shown) == Some(bank))
    ensures NeverTwice(shown + [bank])
  {
    var block := OpenBlock(shown);
    if shown != [] && block != [] {
      assert block[|block| - 1] == shown[|shown| - 1] && block[|block| - 1] in Elements(block);
    }
  }

  lemma OneMoreInBlocks(shown: seq<Bank>, seen: set<Bank>, bank: Bank)
    requires InBlocks(shown, seen) && bank !in seen && !(seen == {} && LastOf(shown) == Some(bank))
    ensures InBlocks(shown + [bank], if |seen + {bank}| == 5 then {} else seen + {bank})
  {
    var block := OpenBlock(shown);
    NotShownJustBefore(shown, seen, bank);
    OpenBlockGrows(shown, bank);
    assert bank !in Elements(block);
    BlocksStayFull(shown, bank);
    hide BlocksFull, OpenBlock, NeverTwice;
    NewInBlock(block, bank);
  }

  lemma NewInBlock(block: seq<Bank>, bank: Bank)
    requires NoDuplicates(block) && bank !in Elements(block)
    ensures NoDuplicates(block + [bank]) && Elements(block + [bank]) == Elements(block) + {bank}
    ensures |Elements(block) + {bank}| == |block| + 1
    ensures Elements<Bank>([]) == {}
  {
    assert forall x :: x in block ==> x in Elements(block);
    assert Elements(block + [bank]) == Elements(block) + {bank};
    DistinctSize(block + [bank]);
  }

  lemma RotatedPrefix(h: seq<Entry>)
    requires Rotated(h) && h != []
    ensures Rotated(h[..|h| - 1]) && Offered(h[..|h| - 1], h[|h| - 1].bank)
  {
    var h' := h[..|h| - 1];
    hide Offered;
    forall k | 0 <= k < |h'| ensures h'[k].run == k + 1 && Offered(h'[..k], h'[k].bank) { assert h'[..k] == h[..k]; }
  }

  lemma NothingShownYet()
    ensures InStep([])
  {
    assert ShownBanks([]) == [] && OpenBlock([]) == [];
  }

  lemma {:induction false} RotationInBlocks(h: seq<Entry>)
    requires Rotated(h)
    ensures InStep(h)
    decreases |h|
  {
    hide *;
    if h == [] {
      NothingShownYet();
    } else {
      RotatedPrefix(h);
      RotationInBlocks(h[..|h| - 1]);
      StepStaysInStep(h[..|h| - 1], h[|h| - 1]);
      assert h[..|h| - 1] + [h[|h| - 1]] == h;
    }
  }

  lemma StepStaysInStep(h: seq<Entry>, e: Entry)
    requires InStep(h) && (e.shown ==> Offered(h, e.bank))
    ensures InStep(h + [e])
  {
    var shown, seen := ShownBanks(h), Seen(h);
    OneMoreEntry(h, e);
    hide InBlocks, ShownBanks, Seen, LastShown;
    assert |BANK_ORDER| == 5;
    if e.shown { OneMoreInBlocks(shown, seen, e.bank); }
  }

  lemma OneMoreEntry(h: seq<Entry>, e: Entry)
    ensures ShownBanks(h + [e]) == if e.shown then ShownBanks(h) + [e.bank] else ShownBanks(h)
    ensures Seen(h + [e]) == if !e.shown then Seen(h)
                             else if |Seen(h) + {e.bank}| == |BANK_ORDER| then {} else Seen(h) + {e.bank}
    ensures LastShown(h + [e]) == if e.shown then Some(e.bank) else LastShown(h)
  {
    assert (h + [e])[..|h|] == h;
  }

  /** Every student sees all five banks before any repeats, and never the same bank twice in a row, however
      the stored runs are ordered when they are read back. */
  lemma RotationIsFair(history: seq<Entry>, h: seq<Entry>, b: nat, k: nat)
    requires Rotated(h) && multiset(history) == multiset(h)
    ensures Sort(history, BY_RUN) == h
    ensures 5 * b + 5 <= |ShownBanks(h)| ==> FullBlock(ShownBanks(h), b)
    ensures k + 1 < |ShownBanks(h)| ==> ShownBanks(h)[k] != ShownBanks(h)[k + 1]
  {
    SortRecovers(history, h, BY_RUN);
    RotationInBlocks(h);
  }
}
