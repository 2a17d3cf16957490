/**
 The March C- memory test of the fault detector, run against a bank that may
 carry one physical defect. The main theorem is the contract of `MarchCTest`:
 the test reports a fault exactly when the bank has a defect that the solid
 data backgrounds can expose, and then names the defective word.
 */
module MarchTest {
  import opened Prelude

  // ----- Words and defects -----

  const WORD_BITS: nat := 64

  /** A 64-bit memory word, bit by bit. */
  type Word = w: seq<bool> | |w| == 64 witness seq(64, _ => false)

  /** The all-zeros word (false) or the all-ones word (true). */
  function Fill(x: bool): Word {
    seq(WORD_BITS, _ => x)
  }

  datatype Site = Site(word: nat, bit: nat)

  /**
   At most one defective cell (the victim). A transition defect cannot make the
   rising (or falling) change. The couplings disturb the victim when the
   aggressor makes the rising (or falling) change, or is in a given state.
   */
  datatype Defect =
    | Healthy
    | StuckAt(victim: Site, value: bool)
    | Transition(victim: Site, rising: bool)
    | Inversion(victim: Site, aggressor: Site, rising: bool)
    | Idempotent(victim: Site, aggressor: Site, rising: bool, value: bool)
    | StateCoupling(victim: Site, aggressor: Site, state: bool, value: bool)
  {
    predicate Coupling() {
      Inversion? || Idempotent? || StateCoupling?
    }

    /** The word whose contents can trigger a disturbance. */
    function Source(): Site
      requires !Healthy?
    {
      if Coupling() then aggressor else victim
    }

    predicate InBank(words: nat) {
      && (!Healthy? ==> victim.word < words && victim.bit < WORD_BITS)
      && (Coupling() ==> aggressor.word < words && aggressor.bit < WORD_BITS && aggressor != victim)
    }

    /**
     The one family the test cannot expose: aggressor and victim share a word,
     and the disturbance forces the victim to the value the aggressor just took.
     Every pass writes that same value to both.
     */
    predicate Masked() {
      && Coupling()
      && aggressor.word == victim.word
      && match this {
        case Idempotent(_, _, rising, value) => value == rising
        case StateCoupling(_, _, state, value) => value == state
        case _ => false
      }
    }

    /** The defects that let the first pass clear the victim. */
    predicate Clears() {
      Masked() || (Transition? && rising)
    }
  }

  /**
   The victim bit after a write: `before` and `after` are the triggering bit on
   either side of the write, `held` the victim before it and `plain` the victim
   a healthy bank would now hold.
   */
  function Disturbed(d: Defect, before: bool, after: bool, held: bool, plain: bool): bool {
    match d
    case Healthy => plain
    case StuckAt(_, value) => value
    case Transition(_, rising) => if held != rising && plain == rising then held else plain
    case Inversion(_, _, rising) => if before != rising && after == rising then !plain else plain
    case Idempotent(_, _, rising, value) => if before != rising && after == rising then value else plain
    case StateCoupling(_, _, state, value) => if after == state then value else plain
  }

  /** What the whole bank holds after word i is written in a bank with defect d. */
  function Store(d: Defect, cells: seq<Word>, i: nat, w: Word): (r: seq<Word>)
    requires d.InBank(|cells|) && i < |cells|
    ensures |r| == |cells|
    ensures forall j :: 0 <= j < |cells| && (!d.Healthy? ==> j != d.victim.word) ==> r[j] == cells[i := w][j]
    ensures !d.Healthy? ==> forall b :: 0 <= b < WORD_BITS && b != d.victim.bit ==>
      r[d.victim.word][b] == cells[i := w][d.victim.word][b]
  {
    var plain := cells[i := w];
    if d.Healthy? then plain
    else
      var (v, s) := (d.victim, d.Source());
      var bit := Disturbed(d, cells[s.word][s.bit], plain[s.word][s.bit], cells[v.word][v.bit], plain[v.word][v.bit]);
      plain[v.word := plain[v.word][v.bit := bit]]
  }

  /** A bank of SRAM words with at most one defect. */
  class Bank {
    const defect: Defect
    const words: nat
    var cells: array<Word>

    ghost predicate Valid()
      reads this, cells
    {
      words == cells.Length && defect.InBank(words)
    }

    constructor (defect: Defect, initial: seq<Word>)
      requires defect.InBank(|initial|)
      ensures Valid() && this.defect == defect && fresh(cells) && cells[..] == initial
    {
      this.defect, words := defect, |initial|;
      cells := new Word[|initial|](i requires 0 <= i < |initial| => initial[i]);
    }

    method Read(i: nat) returns (w: Word)
      requires Valid() && i < words
      ensures w == cells[i]
    {
      w := cells[i];
    }

    method Write(i: nat, w: Word)
      requires Valid() && i < words
      modifies cells
      ensures cells[..] == Store(defect, old(cells[..]), i, w)
    {
      ghost var was := cells[..];
      if defect.Healthy? {
        cells[i] := w;
      } else {
        var v, s := defect.victim, defect.Source();
        var before, held := cells[s.word][s.bit], cells[v.word][v.bit];
        cells[i] := w;
        var after, plain := cells[s.word][s.bit], cells[v.word][v.bit];
        assert cells[..] == was[i := w];
        cells[v.word] := cells[v.word][v.bit := Disturbed(defect, before, after, held, plain)];
      }
    }
  }

  /** What each kind of defect does to its victim when a word is written; `was` and `now` are the aggressor before and after. */
  lemma DefectsDo(d: Defect, cells: seq<Word>, i: nat, w: Word)
    requires d.InBank(|cells|) && i < |cells| && !d.Healthy?
    ensures var (v, s, r) := (d.victim, d.Source(), Store(d, cells, i, w));
            var (held, written, got) := (cells[v.word][v.bit], cells[i := w][v.word][v.bit], r[v.word][v.bit]);
            var (was, now) := (cells[s.word][s.bit], cells[i := w][s.word][s.bit]);
            && (d.StuckAt? ==> got == d.value)
            && (d.Transition? ==> got == if !held && written && d.rising then false
                                         else if held && !written && !d.rising then true else written)
            && (d.Inversion? ==> got == (written != if d.rising then !was && now else was && !now))
            && (d.Idempotent? ==> got == if (if d.rising then !was && now else was && !now) then d.value else written)
            && (d.StateCoupling? ==> got == if now == d.state then d.value else written)
  {
  }

  // ----- What a pass does -----

  /** Word j of a bank whose ideal contents there are all x, and whose victim bit is vb. */
  function WordAt(d: Defect, j: nat, x: bool, vb: bool): Word
    requires !d.Healthy? ==> d.victim.bit < WORD_BITS
  {
    if !d.Healthy? && j == d.victim.word then Fill(x)[d.victim.bit := vb] else Fill(x)
  }

  /** The ideal value of word j when the words on the finished side of `i` hold x and the others p. */
  function Ideal(up: bool, j: int, i: int, p: bool, x: bool): bool {
    if up then (if j < i then x else p) else (if j > i then x else p)
  }

  /** A pass that overwrites p by x is about to process word i, and the victim bit is vb. */
  ghost predicate InPass(d: Defect, cells: seq<Word>, up: bool, i: int, p: bool, x: bool, vb: bool) {
    && d.InBank(|cells|)
    && forall j :: 0 <= j < |cells| ==> cells[j] == WordAt(d, j, Ideal(up, j, i, p, x), vb)
  }

  /** The victim bit after a pass that overwrites p by x writes word i. */
  function Step(d: Defect, up: bool, i: int, p: bool, x: bool, vb: bool): bool {
    if d.Healthy? then vb
    else
      var s := d.Source().word;
      Disturbed(d, if d.Coupling() then Ideal(up, s, i, p, x) else vb,
                   if s == i then x else Ideal(up, s, i, p, x),
                   vb,
                   if i == d.victim.word then x else vb)
  }

  /** The victim bit when a pass that starts with v0 reaches word i, in closed form. */
  function Reached(d: Defect, up: bool, p: bool, x: bool, v0: bool, i: int): bool {
    if d.Healthy? then v0
    else
      var v, s := d.victim.word, d.Source().word;
      var vDone := if up then v < i else v > i;
      var sDone := if up then s < i else s > i;
      if s == v then
        (if vDone then Disturbed(d, p, x, v0, x) else v0)
      else if (s < v) == up then
        var v1 := if sDone then Disturbed(d, p, x, v0, v0) else v0;
        if vDone then Disturbed(d, x, x, v1, x) else v1
      else
        var v1 := if vDone then Disturbed(d, p, p, v0, x) else v0;
        if sDone then Disturbed(d, p, x, v1, v1) else v1
  }

  /** A write has happened, so a standing disturbance shows: every later unrelated write leaves it alone. */
  predicate Settled(d: Defect, a: bool, vb: bool) {
    match d
    case StuckAt(_, value) => vb == value
    case StateCoupling(_, _, state, value) => a == state ==> vb == value
    case _ => true
  }

  /** The victim bit that pass k (1 to 5) finds, and the one it leaves, when pass 1 starts with v0. */
  function Start(d: Defect, words: nat, k: nat, v0: bool): bool
    requires 1 <= k <= 5
    decreases k
  {
    if k == 1 then v0 else After(d, words, k - 1, Start(d, words, k - 1, v0))
  }

  predicate Upward(k: nat) { k <= 2 || k == 5 }

  /** The background that pass k reads. */
  predicate Expected(k: nat) { k == 2 || k == 4 }

  function After(d: Defect, words: nat, k: nat, v: bool): bool {
    if k == 5 then v
    else Reached(d, Upward(k), Expected(k), !Expected(k), v, if Upward(k) then words else -1)
  }

  /** Pass k reads the victim word as it should. */
  predicate Passes(d: Defect, words: nat, k: nat, v0: bool)
    requires 1 <= k <= 5
  {
    !d.Healthy? ==>
      var v := Start(d, words, k, v0);
      Expected(k) == if k == 5 then v else Reached(d, Upward(k), Expected(k), !Expected(k), v, d.victim.word)
  }

  // ----- The test -----

  datatype FaultKind = STUCK_AT_0 | STUCK_AT_1 | TRANSITION

  /** The report: `pass` is the march element whose read failed (the source's detail string). */
  datatype Fault = Fault(kind: FaultKind, bank: nat, address: nat, pass: nat)

  function Failure(kind: FaultKind, bank: nat, i: nat, pass: nat): Option<Fault> {
    Some(Fault(kind, bank, (i * 8) % TWO_64, pass))
  }

  // ----- One write, one pass -----

  /** Bits compare like words: the pass reads the victim word right exactly when the victim bit is right. */
  lemma WordAtIsFill(d: Defect, j: nat, x: bool, vb: bool)
    requires !d.Healthy? ==> d.victim.bit < WORD_BITS
    ensures WordAt(d, j, x, vb) == Fill(x) <==> d.Healthy? || j != d.victim.word || vb == x
    ensures Fill(true) != Fill(false)
  {
    assert Fill(true)[0] && !Fill(false)[0];
    if !d.Healthy? && j == d.victim.word {
      assert WordAt(d, j, x, vb)[d.victim.bit] == vb;
      if vb == x { assert Fill(x)[d.victim.bit := x] == Fill(x); }
    }
  }

  function Next(up: bool, i: int): int { if up then i + 1 else i - 1 }

  /** The victim bit a write leaves is the one `Step` predicts. */
  lemma StoredBit(d: Defect, cells: seq<Word>, up: bool, i: nat, p: bool, x: bool, vb: bool)
    requires i < |cells| && InPass(d, cells, up, i, p, x, vb) && !d.Healthy?
    ensures var plain := cells[i := Fill(x)][d.victim.word];
            Store(d, cells, i, Fill(x)) ==
              cells[i := Fill(x)][d.victim.word := plain[d.victim.bit := Step(d, up, i, p, x, vb)]]
  {
    var (v, s) := (d.victim, d.Source());
    var plain := cells[i := Fill(x)];
    assert cells[v.word] == WordAt(d, v.word, Ideal(up, v.word, i, p, x), vb);
    assert cells[s.word] == WordAt(d, s.word, Ideal(up, s.word, i, p, x), vb);
    assert cells[v.word][v.bit] == vb;
    assert plain[v.word][v.bit] == if i == v.word then x else vb;
    if d.Coupling() {
      assert cells[s.word][s.bit] == Ideal(up, s.word, i, p, x);
      assert plain[s.word][s.bit] == if s.word == i then x else Ideal(up, s.word, i, p, x);
    }
  }

  lemma StoreInPass(d: Defect, cells: seq<Word>, up: bool, i: nat, p: bool, x: bool, vb: bool)
    requires i < |cells| && InPass(d, cells, up, i, p, x, vb)
    ensures InPass(d, Store(d, cells, i, Fill(x)), up, Next(up, i), p, x, Step(d, up, i, p, x, vb))
  {
    var after := Store(d, cells, i, Fill(x));
    var bit := Step(d, up, i, p, x, vb);
    if !d.Healthy? { StoredBit(d, cells, up, i, p, x, vb); }
    forall j | 0 <= j < |cells|
      ensures after[j] == WordAt(d, j, Ideal(up, j, Next(up, i), p, x), bit)
    {
      assert cells[j] == WordAt(d, j, Ideal(up, j, i, p, x), vb);
    }
  }

  /** The closed form follows the writes, whatever the pass direction. */
  lemma ReachedStep(d: Defect, words: nat, up: bool, p: bool, v0: bool, i: nat)
    requires d.InBank(words) && i < words && Settled(d, p, v0)
    ensures Step(d, up, i, p, !p, Reached(d, up, p, !p, v0, i))
         == Reached(d, up, p, !p, v0, Next(up, i))
  {
  }

  lemma SettledAfter(d: Defect, words: nat, up: bool, p: bool, v0: bool)
    requires d.InBank(words) && Settled(d, p, v0)
    ensures Settled(d, !p, Reached(d, up, p, !p, v0, if up then words else -1))
  {
  }

  /** The heart of the matter: a defect that gets past all five reads is masked. */
  lemma Completeness(d: Defect, words: nat, v0: bool)
    requires d.InBank(words) && Settled(d, false, v0)
    requires forall k :: 1 <= k <= 5 ==> Passes(d, words, k, v0)
    ensures d.Healthy? || d.Masked()
  {
    assert Passes(d, words, 1, v0) && Passes(d, words, 2, v0) && Passes(d, words, 3, v0)
        && Passes(d, words, 4, v0) && Passes(d, words, 5, v0);
  }

  /** And a masked defect, once the first pass has cleared the victim, gets past every read. */
  lemma MaskedPasses(d: Defect, words: nat, v0: bool, k: nat)
    requires d.InBank(words) && d.Masked() && !v0 && 1 <= k <= 5
    ensures Passes(d, words, k, v0)
  {
  }

  // ----- The test itself -----

  /**
   The first pass, on arbitrary initial contents: the words below i are cleared
   but for the victim bit, whatever earlier disturbances made of it.
   */
  ghost predicate Clearing(d: Defect, cells: seq<Word>, i: int) {
    && d.InBank(|cells|)
    && (d.Healthy? ==> forall j :: 0 <= j < |cells| && j < i ==> cells[j] == Fill(false))
    && (!d.Healthy? ==>
      var vb := cells[d.victim.word][d.victim.bit];
      && (forall j :: 0 <= j < |cells| && j < i ==> cells[j] == WordAt(d, j, false, vb))
      && (0 < i ==> Settled(d, cells[d.Source().word][d.Source().bit], vb))
      && (d.Clears() && d.victim.word < i ==> !vb))
  }

  /** What the victim bit is now. */
  function VictimBit(d: Defect, cells: seq<Word>): bool
    requires d.InBank(|cells|)
  {
    if d.Healthy? then false else cells[d.victim.word][d.victim.bit]
  }

  /** The first pass keeps the victim bit of a defect that cannot fall. */
  ghost predicate Remembers(d: Defect, first: bool, vb: bool) { d.Transition? && !d.rising ==> vb == first }

  lemma NothingCleared(d: Defect, cells: seq<Word>)
    requires d.InBank(|cells|)
    ensures Clearing(d, cells, 0)
  {
  }

  lemma StoreClearing(d: Defect, cells: seq<Word>, i: nat)
    requires i < |cells| && Clearing(d, cells, i)
    ensures Clearing(d, Store(d, cells, i, Fill(false)), i + 1)
    ensures forall first :: Remembers(d, first, VictimBit(d, cells)) ==>
      Remembers(d, first, VictimBit(d, Store(d, cells, i, Fill(false))))
  {
    var after := Store(d, cells, i, Fill(false));
    if !d.Healthy? {
      var v := d.victim;
      var plain := cells[i := Fill(false)];
      var bit := after[v.word][v.bit];
      assert after == plain[v.word := plain[v.word][v.bit := bit]];
      forall j | 0 <= j < |cells| && j < i + 1
        ensures after[j] == WordAt(d, j, false, bit)
      {
        if j < i { assert cells[j] == WordAt(d, j, false, cells[v.word][v.bit]); }
      }
    }
  }

  /** Pass k is about to process word i: the earlier passes, and this one so far, have read what they should. */
  ghost predicate OnTrack(d: Defect, cells: seq<Word>, k: nat, i: int, v0: bool)
    requires 1 <= k <= 5
  {
    && d.InBank(|cells|)
    && Settled(d, false, v0)
    && (d.Clears() ==> !v0)
    && (forall m :: 1 <= m < k ==> Passes(d, |cells|, m, v0))
    && (!d.Healthy? && Finished(k, d.victim.word, i) ==> Passes(d, |cells|, k, v0))
    && InPass(d, cells, Upward(k), i, Expected(k), k < 5 && !Expected(k), Found(d, |cells|, k, i, v0))
  }

  predicate Finished(k: nat, j: int, i: int) { if Upward(k) then j < i else j > i }

  /** Where pass k begins and ends. */
  function First(k: nat, words: nat): int { if Upward(k) then 0 else words - 1 }

  function Last(k: nat, words: nat): int { if Upward(k) then words else -1 }

  /** The victim bit pass k finds on reaching word i. */
  function Found(d: Defect, words: nat, k: nat, i: int, v0: bool): bool
    requires 1 <= k <= 5
  {
    var v := Start(d, words, k, v0);
    if k == 5 then v else Reached(d, Upward(k), Expected(k), !Expected(k), v, i)
  }

  lemma StartSettled(d: Defect, words: nat, k: nat, v0: bool)
    requires d.InBank(words) && Settled(d, false, v0) && 1 <= k <= 5
    ensures Settled(d, Expected(k), Start(d, words, k, v0))
  {
    if k > 1 {
      StartSettled(d, words, k - 1, v0);
      SettledAfter(d, words, Upward(k - 1), Expected(k - 1), Start(d, words, k - 1, v0));
    }
  }

  lemma Begin(d: Defect, cells: seq<Word>)
    requires Clearing(d, cells, |cells|)
    ensures OnTrack(d, cells, 1, 0, VictimBit(d, cells))
  {
    if !d.Healthy? {
      assert cells[d.Source().word] == WordAt(d, d.Source().word, false, VictimBit(d, cells));
    }
  }

  /** A read that goes well, and the write after it. */
  lemma Advance(d: Defect, cells: seq<Word>, k: nat, i: nat, v0: bool)
    requires 1 <= k < 5 && i < |cells| && OnTrack(d, cells, k, i, v0) && cells[i] == Fill(Expected(k))
    ensures OnTrack(d, Store(d, cells, i, Fill(!Expected(k))), k, Next(Upward(k), i), v0)
  {
    hide Step, Reached, Store, Start, WordAt, InPass, Settled, Disturbed;
    StartSettled(d, |cells|, k, v0);
    ReadsWell(d, cells, k, i, v0);
    var v := Start(d, |cells|, k, v0);
    StoreInPass(d, cells, Upward(k), i, Expected(k), !Expected(k), Found(d, |cells|, k, i, v0));
    ReachedStep(d, |cells|, Upward(k), Expected(k), v, i);
  }

  /** What a good read at word i says about the victim. */
  lemma ReadsWell(d: Defect, cells: seq<Word>, k: nat, i: nat, v0: bool)
    requires 1 <= k <= 5 && i < |cells| && OnTrack(d, cells, k, i, v0)
    ensures cells[i] == Fill(Expected(k)) <==> (!d.Healthy? && i == d.victim.word ==> Passes(d, |cells|, k, v0))
  {
    hide Step, Reached, Start, Settled, Disturbed;
    WordAtIsFill(d, i, Expected(k), Found(d, |cells|, k, i, v0));
  }

  /** A read that goes wrong can only be at the victim of an unmasked defect. */
  lemma Misread(d: Defect, cells: seq<Word>, k: nat, i: nat, v0: bool)
    requires 1 <= k <= 5 && i < |cells| && OnTrack(d, cells, k, i, v0) && cells[i] != Fill(Expected(k))
    ensures !d.Healthy? && !d.Masked() && i == d.victim.word
    ensures FirstMisread(d, |cells|, k)
    ensures d.StuckAt? ==> k == if d.value then 1 else 2
    ensures d.Transition? ==> k == if d.rising then 2 else if v0 then 1 else 3
  {
    ReadsWell(d, cells, k, i, v0);
    if d.Masked() { MaskedPasses(d, |cells|, v0, k); }
    if d.StuckAt? || d.Transition? {
      assert k > 1 ==> Passes(d, |cells|, 1, v0);
      assert k > 2 ==> Passes(d, |cells|, 2, v0);
      assert k > 3 ==> Passes(d, |cells|, 3, v0);
    }
  }

  lemma NextPass(d: Defect, cells: seq<Word>, k: nat, v0: bool)
    requires 1 <= k < 5 && OnTrack(d, cells, k, Last(k, |cells|), v0)
    ensures OnTrack(d, cells, k + 1, First(k + 1, |cells|), v0)
  {
    hide Settled, Disturbed, WordAt, InPass, Reached;
    var v := Start(d, |cells|, k + 1, v0);
    FreshPass(d, |cells|, k + 1, v);
    Handover(d, cells, k, v);
    assert v == Found(d, |cells|, k, Last(k, |cells|), v0);
    assert Passes(d, |cells|, k, v0);
  }

  /** The contents a finished pass leaves are the ones the next pass expects. */
  lemma Handover(d: Defect, cells: seq<Word>, k: nat, vb: bool)
    requires 1 <= k < 5
    requires InPass(d, cells, Upward(k), Last(k, |cells|), Expected(k), !Expected(k), vb)
    ensures InPass(d, cells, Upward(k + 1), First(k + 1, |cells|), Expected(k + 1), k + 1 < 5 && !Expected(k + 1), vb)
  {
  }

  /** A pass that has processed no word finds the victim as it was. */
  lemma FreshPass(d: Defect, words: nat, k: nat, v: bool)
    requires d.InBank(words) && 1 <= k <= 5
    ensures Reached(d, Upward(k), Expected(k), !Expected(k), v, First(k, words)) == v
  {
  }

  /** The last pass only reads. */
  lemma Verify(d: Defect, cells: seq<Word>, i: nat, v0: bool)
    requires i < |cells| && OnTrack(d, cells, 5, i, v0) && cells[i] == Fill(false)
    ensures OnTrack(d, cells, 5, i + 1, v0)
  {
    ReadsWell(d, cells, 5, i, v0);
  }

  lemma Verified(d: Defect, cells: seq<Word>, v0: bool)
    requires OnTrack(d, cells, 5, |cells|, v0)
    ensures d.Healthy? || d.Masked()
  {
    if !d.Healthy? { Completeness(d, |cells|, v0); }
  }

  /** The victim word is read wrong in this pass for the first time, whatever bit the clearing left in it. */
  ghost predicate FirstMisread(d: Defect, words: nat, pass: nat) {
    && 1 <= pass <= 5
    && exists v0 ::
      && Settled(d, false, v0)
      && (forall m :: 1 <= m < pass ==> Passes(d, words, m, v0))
      && !Passes(d, words, pass, v0)
  }

  /**
   What the test is to report on a bank with defect d whose victim bit was
   `first` at the start: a fault exactly for an unmasked defect, at the address
   of the defective word, from the first pass that misreads it. Passes 2 and 4
   find a zero among ones, passes 1 and 5 a one among zeros; pass 3 calls that
   a transition.
   */
  ghost predicate Diagnosis(d: Defect, words: nat, bankId: nat, first: bool, r: Option<Fault>) {
    && (r.Some? <==> !d.Healthy? && !d.Masked())
    && (r.Some? ==> r.value.address == 8 * d.victim.word && r.value.bank == bankId && FirstMisread(d, words, r.value.pass))
    && (r.Some? && r.value.pass in {2, 4} ==> r.value.kind == STUCK_AT_0)
    && (r.Some? && r.value.pass in {1, 5} ==> r.value.kind == STUCK_AT_1)
    && (r.Some? && r.value.pass == 3 ==> r.value.kind == TRANSITION)
    && (d.StuckAt? ==> r.value.kind == if d.value then STUCK_AT_1 else STUCK_AT_0)
    && (d.StuckAt? ==> r.value.pass == if d.value then 1 else 2)
    && (d.Transition? ==> r.value.kind == if d.rising then STUCK_AT_0 else if first then STUCK_AT_1 else TRANSITION)
    && (d.Transition? ==> r.value.pass == if d.rising then 2 else if first then 1 else 3)
  }

  /** The kind a pass is to report. */
  predicate Reports(pass: nat, kind: FaultKind) {
    && (pass in {2, 4} ==> kind == STUCK_AT_0)
    && (pass in {1, 5} ==> kind == STUCK_AT_1)
    && (pass == 3 ==> kind == TRANSITION)
  }

  lemma Remembered(d: Defect, first: bool, cells: seq<Word>)
    requires d.InBank(|cells|) && first == VictimBit(d, cells)
    ensures Remembers(d, first, VictimBit(d, cells))
  {
  }

  lemma Blame(d: Defect, cells: seq<Word>, k: nat, i: nat, v0: bool, first: bool, bankId: nat, kind: FaultKind)
    requires Reports(k, kind)
    requires 1 <= k <= 5 && i < |cells| && OnTrack(d, cells, k, i, v0) && cells[i] != Fill(Expected(k))
    requires Remembers(d, first, v0) && |cells| * 8 <= TWO_64
    ensures Diagnosis(d, |cells|, bankId, first, Failure(kind, bankId, i, k))
  {
    Misread(d, cells, k, i, v0);
    hide OnTrack, Fill;
    assert 8 * i < TWO_64;
  }

  lemma Acquit(d: Defect, cells: seq<Word>, v0: bool, first: bool, bankId: nat)
    requires OnTrack(d, cells, 5, |cells|, v0)
    ensures Diagnosis(d, |cells|, bankId, first, None)
  {
    Verified(d, cells, v0);
    hide OnTrack;
  }

  /** In every bank, whatever it holds at first, the test makes the right diagnosis. */
  method MarchCTest(mem: Bank, bankId: nat) returns (r: Option<Fault>)
    requires mem.Valid() && mem.words * 8 <= TWO_64
    modifies mem.cells
    ensures Diagnosis(mem.defect, mem.words, bankId, old(VictimBit(mem.defect, mem.cells[..])), r)
  {
    hide Clearing, OnTrack, Store, VictimBit, Fill, Defect.InBank, Diagnosis, Remembers;
    ghost var d, first := mem.defect, VictimBit(mem.defect, mem.cells[..]);
    Remembered(d, first, mem.cells[..]);
    assert Clearing(d, mem.cells[..], 0) by { NothingCleared(d, mem.cells[..]); }
    // clear the bank
    for i := 0 to mem.words
      invariant Clearing(d, mem.cells[..], i)
      invariant Remembers(d, first, VictimBit(d, mem.cells[..]))
    {
      StoreClearing(d, mem.cells[..], i);
      mem.Write(i, Fill(false));
    }
    ghost var v0 := VictimBit(d, mem.cells[..]);
    Begin(d, mem.cells[..]);
    // pass 1, upwards: zeros become ones
    for i := 0 to mem.words
      invariant OnTrack(d, mem.cells[..], 1, i, v0)
    {
      var w := mem.Read(i);
      if w != Fill(false) {
        Blame(d, mem.cells[..], 1, i, v0, first, bankId, STUCK_AT_1);
        return Failure(STUCK_AT_1, bankId, i, 1);
      }
      Advance(d, mem.cells[..], 1, i, v0);
      mem.Write(i, Fill(true));
    }
    NextPass(d, mem.cells[..], 1, v0);
    // pass 2, upwards: ones become zeros
    for i := 0 to mem.words
      invariant OnTrack(d, mem.cells[..], 2, i, v0)
    {
      var w := mem.Read(i);
      if w != Fill(true) {
        Blame(d, mem.cells[..], 2, i, v0, first, bankId, STUCK_AT_0);
        return Failure(STUCK_AT_0, bankId, i, 2);
      }
      Advance(d, mem.cells[..], 2, i, v0);
      mem.Write(i, Fill(false));
    }
    NextPass(d, mem.cells[..], 2, v0);
    // pass 3, downwards: zeros become ones
    for i := mem.words downto 0
      invariant OnTrack(d, mem.cells[..], 3, i - 1, v0)
    {
      var w := mem.Read(i);
      if w != Fill(false) {
        Blame(d, mem.cells[..], 3, i, v0, first, bankId, TRANSITION);
        return Failure(TRANSITION, bankId, i, 3);
      }
      Advance(d, mem.cells[..], 3, i, v0);
      mem.Write(i, Fill(true));
    }
    NextPass(d, mem.cells[..], 3, v0);
    // pass 4, downwards: ones become zeros
    for i := mem.words downto 0
      invariant OnTrack(d, mem.cells[..], 4, i - 1, v0)
    {
      var w := mem.Read(i);
      if w != Fill(true) {
        Blame(d, mem.cells[..], 4, i, v0, first, bankId, STUCK_AT_0);
        return Failure(STUCK_AT_0, bankId, i, 4);
      }
      Advance(d, mem.cells[..], 4, i, v0);
      mem.Write(i, Fill(false));
    }
    NextPass(d, mem.cells[..], 4, v0);
    // pass 5, upwards: all zeros at the end
    for i := 0 to mem.words
      invariant OnTrack(d, mem.cells[..], 5, i, v0)
    {
      var w := mem.Read(i);
      if w != Fill(false) {
        Blame(d, mem.cells[..], 5, i, v0, first, bankId, STUCK_AT_1);
        return Failure(STUCK_AT_1, bankId, i, 5);
      }
      Verify(d, mem.cells[..], i, v0);
    }
    Acquit(d, mem.cells[..], v0, first, bankId);
    return None;
  }
}
